/** The serving adapter: a server that keeps no conversations and a client that carries the sealed state,
  * refining a server that keeps the state itself. */
module Serving {
  import opened Results
  import opened ByteStrings
  import opened Primitives
  import opened Envelope
  import opened Commitment
  import opened Manifests
  import opened ModelManifests
  import opened Canonical
  import Utf8

  /** The model behind the endpoint: a message and a prior state give a reply and a new state. */
  type Engine = (string, Bytes) -> (string, Bytes)

  datatype Role = User | Assistant

  type Line = (Role, string)

  datatype Request = Request(message: string, continuation: Option<Bytes>)

  datatype Response = Reply(reply: string, continuation: Bytes) | StateEpochMismatch

  function RoleName(r: Role): string {
    match r
    case User => "user"
    case Assistant => "assistant"
  }

  function LineText(l: Line): string {
    RoleName(l.0) + ":" + l.1
  }

  /** The transcript in one message, its lines joined by bars. */
  function Replay(transcript: seq<Line>): string {
    if transcript == [] then ""
    else if |transcript| == 1 then LineText(transcript[0])
    else LineText(transcript[0]) + " | " + Replay(transcript[1..])
  }

  lemma LineTextIs(text: string)
    ensures LineText((User, text)) == "user:" + text && LineText((Assistant, text)) == "assistant:" + text
  {
  }

  /** A replay grows by a bar and the next line; a first line stands alone. */
  lemma {:induction false} ReplaySnoc(t: seq<Line>, l: Line)
    ensures Replay([]) == "" && Replay([l]) == LineText(l)
    ensures t != [] ==> Replay(t + [l]) == Replay(t) + " | " + LineText(l)
  {
    if |t| == 1 {
      assert t + [l] == [t[0], l] && [t[0], l][1..] == [l];
    } else if |t| > 1 {
      ReplaySnoc(t[1..], l);
      assert (t + [l])[1..] == t[1..] + [l];
      var head, rest := LineText(t[0]) + " | ", Replay(t[1..]);
      assert head + (rest + " | " + LineText(l)) == head + rest + " | " + LineText(l);
    }
  }

  /** Every line of the transcript is carried in full. */
  lemma {:induction false} ReplayCarries(transcript: seq<Line>, i: nat) returns (before: string, after: string)
    requires i < |transcript|
    ensures Replay(transcript) == before + LineText(transcript[i]) + after
  {
    if i == 0 {
      before := "";
      after := if |transcript| == 1 then "" else " | " + Replay(transcript[1..]);
    } else {
      before, after := ReplayCarries(transcript[1..], i - 1);
      before := LineText(transcript[0]) + " | " + before;
    }
  }

  /** The binding the adapter seals under: no context, epoch zero. */
  function ServerBinding(f: Lib, secret: Key, m: Manifest): (b: Binding)
    ensures Usable(b)
  {
    Binding(secret, Fingerprint(f, m), 0, [])
  }

  class Server {
    const lib: Lib
    const engine: Engine
    const secret: Key
    var manifest: Manifest

    constructor (lib: Lib, engine: Engine, secret: Key, manifest: Manifest)
      ensures this.lib == lib && this.engine == engine && this.secret == secret && this.manifest == manifest
    {
      this.lib := lib;
      this.engine := engine;
      this.secret := secret;
      this.manifest := manifest;
    }

    /** `chat`.  A refused continuation is a response; anything else that `unseal_state` or `seal_state` raises
      * escapes. */
    method Chat(request: Request, d: Draw) returns (r: Result<Response>)
      ensures r == ChatOutcome(lib, engine, ServerBinding(lib, secret, manifest), request, d)
    {
      var b := ServerBinding(lib, secret, manifest);
      var prior := [];
      if request.continuation.Some? && request.continuation.value != [] {
        var unsealed := UnsealState(lib, request.continuation.value, b);
        if unsealed == Err(StateSealMismatch) {
          return Ok(StateEpochMismatch);
        }
        prior :- unsealed;
      }
      var (reply, state) := engine(request.message, prior);
      var sealed :- SealState(lib, state, b, d);
      return Ok(Reply(reply, sealed));
    }

    method UpdateModel(manifest: Manifest)
      modifies this
      ensures this.manifest == manifest
    {
      this.manifest := manifest;
    }
  }

  function ChatOutcome(f: Lib, engine: Engine, b: Binding, request: Request, d: Draw): Result<Response> {
    var unsealed :=
      if request.continuation.Some? && request.continuation.value != []
      then UnsealState(f, request.continuation.value, b)
      else Ok([]);
    if unsealed == Err(StateSealMismatch) then Ok(StateEpochMismatch)
    else
      var prior :- unsealed;
      var (reply, state) := engine(request.message, prior);
      var sealed :- SealState(f, state, b, d);
      Ok(Reply(reply, sealed))
  }

  /** Under which binding the adapter opens and seals: its secret, the model's fingerprint, epoch zero, no context. */
  lemma ServerBindingIs(f: Lib, secret: Key, m: Manifest)
    ensures ServerBinding(f, secret, m) == Binding(secret, f.sha3(CanonicalForm(f, m)), 0, [])
  {
  }

  /** What `chat` makes of a continuation that is there: garbage raises as malformed, one that does not open is the
    * mismatch response, and one that opens is gone on from. */
  lemma ChatOpens(f: Lib, engine: Engine, b: Binding, message: string, e: Bytes, d: Draw)
    requires Usable(b) && e != []
    ensures var r := ChatOutcome(f, engine, b, Request(message, Some(e)), d);
            && (r == Err(MalformedEnvelope) <==> Parse(e).Err?)
            && (r == Ok(StateEpochMismatch) <==> Parse(e).Ok? && UnsealState(f, e, b).Err?)
            && (UnsealState(f, e, b).Ok? ==> r == ChatFrom(f, engine, b, message, UnsealState(f, e, b).value, d))
  {
    ParseIffFramed(e);
    if UnsealState(f, e, b).Ok? {
      var (reply, state) := engine(message, UnsealState(f, e, b).value);
      SealSucceedsIff(f, state, b, d);
    }
  }

  /** An absent continuation and an empty one both start from nothing. */
  lemma ChatStarts(f: Lib, engine: Engine, b: Binding, message: string, d: Draw)
    requires Usable(b)
    ensures ChatOutcome(f, engine, b, Request(message, None), d) == ChatFrom(f, engine, b, message, [], d)
    ensures ChatOutcome(f, engine, b, Request(message, Some([])), d) == ChatFrom(f, engine, b, message, [], d)
  {
    SealSucceedsIff(f, engine(message, []).1, b, d);
  }

  /** From a state on: the engine's reply, with its new state sealed, unless that state is too long to seal. */
  function ChatFrom(f: Lib, engine: Engine, b: Binding, message: string, prior: Bytes, d: Draw): (r: Result<Response>)
    requires Usable(b)
    ensures var (reply, state) := engine(message, prior);
            if |state| > 4294967279 then r == Err(SceError)
            else r.Ok? && r.value.Reply? && r.value.reply == reply
                 && SealState(f, state, b, d) == Ok(r.value.continuation)
  {
    var (reply, state) := engine(message, prior);
    if |state| > MAX_STATE then Err(SceError) else Ok(Reply(reply, SealedState(f, state, b, d)))
  }

  function SealedState(f: Lib, state: Bytes, b: Binding, d: Draw): (e: Bytes)
    requires Usable(b) && |state| <= MAX_STATE
    ensures SealState(f, state, b, d) == Ok(e)
  {
    SealSucceedsIff(f, state, b, d);
    SealState(f, state, b, d).value
  }

  // The reference: a server that keeps the state

  /** What a stateful server remembers of a conversation: the state of its last turn and the manifest it ran under. */
  datatype Session = Session(manifest: Manifest, state: Bytes)

  datatype Conversation = Conversation(session: Option<Session>, transcript: seq<Line>)

  /** A turn resumes from the state kept if the model is the one that produced it, else restarts from nothing with
    * the whole transcript as its message. */
  predicate Resumes(f: Lib, m: Manifest, c: Conversation) {
    c.session.Some? ==> Fingerprint(f, c.session.value.manifest) == Fingerprint(f, m)
  }

  /** What the engine is asked, and from which state. */
  function Asked(f: Lib, m: Manifest, c: Conversation, message: string): (string, Bytes) {
    if c.session.None? then (message, [])
    else if Resumes(f, m, c) then (message, c.session.value.state)
    else (Replay(c.transcript + [(User, message)]), [])
  }

  /** One turn of the stateful server.  A state too long to seal ends the turn without a reply: the user's line
    * stays, and a restart has already forgotten the old state. */
  function Turn(f: Lib, engine: Engine, m: Manifest, c: Conversation, message: string): (Result<string>, Conversation) {
    var (asked, prior) := Asked(f, m, c, message);
    var (reply, state) := engine(asked, prior);
    var transcript := c.transcript + [(User, message)];
    if |state| > MAX_STATE then
      (Err(SceError), Conversation(if Resumes(f, m, c) then c.session else None, transcript))
    else
      (Ok(reply), Conversation(Some(Session(m, state)), transcript + [(Assistant, reply)]))
  }

  // Key binding

  /** The two manifests commit alike under this salt only if their fingerprints are equal. */
  predicate Separates(f: Lib, secret: Key, m1: Manifest, m2: Manifest, salt: Salt) {
    var km1 := MaterialOf(f, ServerBinding(f, secret, m1), salt);
    var km2 := MaterialOf(f, ServerBinding(f, secret, m2), salt);
    km1.commitment == km2.commitment ==> Fingerprint(f, m1) == Fingerprint(f, m2)
  }

  /** Where key binding fails there is an explicit collision. */
  lemma SeparatesOrCollides(f: Lib, secret: Key, m1: Manifest, m2: Manifest, salt: Salt)
    ensures Separates(f, secret, m1, m2, salt)
            || FindCollision(f, ServerBinding(f, secret, m1), ServerBinding(f, secret, m2), salt).Some?
  {
  }

  /** The client's blob stands for the session: absent together, or the session's state sealed under its manifest
    * with one of these salts. */
  ghost predicate Carries(f: Lib, secret: Key, continuation: Option<Bytes>, session: Option<Session>,
                          salts: set<Salt>)
  {
    match session
    case None => continuation.None?
    case Some(s) =>
      continuation.Some? && exists d: Draw ::
        d.salt in salts && SealState(f, s.state, ServerBinding(f, secret, s.manifest), d) == Ok(continuation.value)
  }

  /** A blob sealed under the present model opens to its state; one sealed under another is refused, uniformly. */
  lemma BlobOpens(f: Lib, secret: Key, s: Session, d: Draw, e: Bytes, m: Manifest)
    requires SealState(f, s.state, ServerBinding(f, secret, s.manifest), d) == Ok(e)
    requires Separates(f, secret, s.manifest, m, d.salt)
    ensures e != []
    ensures UnsealState(f, e, ServerBinding(f, secret, m)) ==
            if Fingerprint(f, s.manifest) == Fingerprint(f, m) then Ok(s.state) else Err(StateSealMismatch)
  {
    var b, b' := ServerBinding(f, secret, s.manifest), ServerBinding(f, secret, m);
    SealRoundTrip(f, s.state, b, d);
    OpenedCommitment(f, e, b);
    if UnsealState(f, e, b').Ok? {
      OpenedCommitment(f, e, b');
    }
    ParseIffFramed(e);
  }

  /** The same for the blob a client carries, whichever salt it was sealed under. */
  lemma CarriedOpens(f: Lib, secret: Key, e: Bytes, s: Session, m: Manifest, salts: set<Salt>)
    requires Carries(f, secret, Some(e), Some(s), salts)
    requires forall salt :: salt in salts ==> Separates(f, secret, s.manifest, m, salt)
    ensures e != []
    ensures UnsealState(f, e, ServerBinding(f, secret, m)) ==
            if Fingerprint(f, s.manifest) == Fingerprint(f, m) then Ok(s.state) else Err(StateSealMismatch)
  {
    var d: Draw :| d.salt in salts && SealState(f, s.state, ServerBinding(f, secret, s.manifest), d) == Ok(e);
    BlobOpens(f, secret, s, d, e, m);
  }

  /** What the two calls of a turn come to, for a blob that stands for the session. */
  lemma ChatAnswers(f: Lib, engine: Engine, secret: Key, m: Manifest, c: Conversation, continuation: Option<Bytes>,
                    message: string, d: Draw, salts: set<Salt>)
    requires Carries(f, secret, continuation, c.session, salts)
    requires c.session.Some? ==>
               forall salt :: salt in salts ==> Separates(f, secret, c.session.value.manifest, m, salt)
    ensures var b := ServerBinding(f, secret, m);
            var (asked, prior) := Asked(f, m, c, message);
            if Resumes(f, m, c) then
              ChatOutcome(f, engine, b, Request(message, continuation), d) == ChatFrom(f, engine, b, asked, prior, d)
            else
              && ChatOutcome(f, engine, b, Request(message, continuation), d) == Ok(StateEpochMismatch)
              && ChatOutcome(f, engine, b, Request(asked, None), d) == ChatFrom(f, engine, b, asked, prior, d)
  {
    var b := ServerBinding(f, secret, m);
    var (asked, prior) := Asked(f, m, c, message);
    if c.session.Some? {
      CarriedOpens(f, secret, continuation.value, c.session.value, m, salts);
    }
    SealSucceedsIff(f, engine(asked, prior).1, b, d);
  }

  class Client {
    const server: Server
    var continuation: Option<Bytes>
    var transcript: seq<Line>

    constructor (server: Server)
      ensures this.server == server && continuation == None && transcript == []
    {
      this.server := server;
      continuation := None;
      transcript := [];
    }

    /** `say`: one turn of the stateful reference, for any conversation the blob stands for. */
    method Say(message: string, d: Draw, ghost session: Option<Session>, ghost salts: set<Salt>)
      returns (r: Result<string>, ghost after: Option<Session>)
      requires Carries(server.lib, server.secret, continuation, session, salts)
      requires session.Some? ==> forall salt :: salt in salts ==>
                 Separates(server.lib, server.secret, session.value.manifest, server.manifest, salt)
      modifies this
      ensures (r, Conversation(after, transcript)) ==
              Turn(server.lib, server.engine, server.manifest, Conversation(session, old(transcript)), message)
      ensures Carries(server.lib, server.secret, continuation, after, salts + {d.salt})
    {
      ghost var c := Conversation(session, transcript);
      ChatAnswers(server.lib, server.engine, server.secret, server.manifest, c, continuation, message, d, salts);
      after := session;
      transcript := transcript + [(User, message)];
      var response :- server.Chat(Request(message, continuation), d);
      if response == StateEpochMismatch {
        continuation := None;
        after := None;
        var replay := Replay(transcript);
        response :- server.Chat(Request(replay, None), d);
      }
      continuation := Some(response.continuation);
      transcript := transcript + [(Assistant, response.reply)];
      ghost var (asked, prior) := Asked(server.lib, server.manifest, c, message);
      after := Some(Session(server.manifest, server.engine(asked, prior).1));
      return Ok(response.reply), after;
    }
  }

  // Whole runs

  datatype Op = Say(message: string, d: Draw) | Update(manifest: Manifest)

  /** The stateful server's present model, its conversation, and the outcomes of the turns so far. */
  datatype Reference = Reference(manifest: Manifest, conversation: Conversation, outcomes: seq<Result<string>>)

  function RefStep(f: Lib, engine: Engine, s: Reference, op: Op): Reference {
    match op
    case Say(message, _) =>
      var (r, c) := Turn(f, engine, s.manifest, s.conversation, message);
      Reference(s.manifest, c, s.outcomes + [r])
    case Update(manifest) => s.(manifest := manifest)
  }

  /** The stateful server after the first `n` operations. */
  function RefRun(f: Lib, engine: Engine, m: Manifest, ops: seq<Op>, n: nat): Reference
    requires n <= |ops|
  {
    if n == 0 then Reference(m, Conversation(None, []), [])
    else RefStep(f, engine, RefRun(f, engine, m, ops, n - 1), ops[n - 1])
  }

  predicate InUse(x: Manifest, m: Manifest, ops: seq<Op>) {
    x == m || exists i :: 0 <= i < |ops| && ops[i] == Update(x)
  }

  function Salts(ops: seq<Op>): set<Salt> {
    set i | 0 <= i < |ops| && ops[i].Say? :: ops[i].d.salt
  }

  lemma SaltOfTurn(ops: seq<Op>, i: nat)
    requires i < |ops| && ops[i].Say?
    ensures ops[i].d.salt in Salts(ops) && Salts(ops) + {ops[i].d.salt} == Salts(ops)
  {
  }

  /** Key binding over a run: its manifests are told apart under each of its salts. */
  ghost predicate KeyBinding(f: Lib, secret: Key, m: Manifest, ops: seq<Op>) {
    forall x, y, salt :: InUse(x, m, ops) && InUse(y, m, ops) && salt in Salts(ops) ==> Separates(f, secret, x, y, salt)
  }

  lemma KeyBindingApart(f: Lib, secret: Key, m: Manifest, ops: seq<Op>, x: Manifest, y: Manifest)
    requires KeyBinding(f, secret, m, ops) && InUse(x, m, ops) && InUse(y, m, ops)
    ensures forall salt :: salt in Salts(ops) ==> Separates(f, secret, x, y, salt)
  {
  }

  lemma RunStep(f: Lib, engine: Engine, m: Manifest, ops: seq<Op>, i: nat)
    requires i < |ops|
    ensures RefRun(f, engine, m, ops, i + 1) == RefStep(f, engine, RefRun(f, engine, m, ops, i), ops[i])
  {
  }

  lemma SessionAfterTurn(f: Lib, engine: Engine, m: Manifest, c: Conversation, message: string)
    ensures var after := Turn(f, engine, m, c, message).1.session;
            after.None? || after == c.session || after.value.manifest == m
  {
  }

  /** Over every interleaving of turns and model updates, the stateless server with a carrying client behaves as
    * the stateful one: same outcomes, same transcript. */
  method Converse(f: Lib, engine: Engine, secret: Key, m: Manifest, ops: seq<Op>)
    returns (outcomes: seq<Result<string>>, client: Client)
    requires KeyBinding(f, secret, m, ops)
    ensures fresh(client) && fresh(client.server)
    ensures var ref := RefRun(f, engine, m, ops, |ops|);
            && outcomes == ref.outcomes && client.transcript == ref.conversation.transcript
            && client.server.manifest == ref.manifest
            && Carries(f, secret, client.continuation, ref.conversation.session, Salts(ops))
  {
    var server := new Server(f, engine, secret, m);
    client := new Client(server);
    outcomes := [];
    ghost var session: Option<Session> := None;
    ghost var salts := Salts(ops);
    for i := 0 to |ops|
      invariant client.server == server && server.lib == f && server.engine == engine && server.secret == secret
      invariant RefRun(f, engine, m, ops, i) ==
                Reference(server.manifest, Conversation(session, client.transcript), outcomes)
      invariant InUse(server.manifest, m, ops) && (session.Some? ==> InUse(session.value.manifest, m, ops))
      invariant Carries(f, secret, client.continuation, session, salts)
    {
      RunStep(f, engine, m, ops, i);
      match ops[i]
      case Say(message, d) =>
        SaltOfTurn(ops, i);
        SessionAfterTurn(f, engine, server.manifest, Conversation(session, client.transcript), message);
        if session.Some? {
          KeyBindingApart(f, secret, m, ops, session.value.manifest, server.manifest);
        }
        var outcome;
        outcome, session := client.Say(message, d, session, salts);
        outcomes := outcomes + [outcome];
      case Update(manifest) =>
        server.UpdateModel(manifest);
    }
  }

  // What a turn is asked

  /** The state the engine is about to return in turn `i`. */
  function StateOf(f: Lib, engine: Engine, m: Manifest, ops: seq<Op>, i: nat): Bytes
    requires i < |ops| && ops[i].Say?
  {
    var s := RefRun(f, engine, m, ops, i);
    var (asked, prior) := Asked(f, s.manifest, s.conversation, ops[i].message);
    engine(asked, prior).1
  }

  /** The guard of the branch that raises: that state fits one envelope. */
  predicate StateFits(f: Lib, engine: Engine, m: Manifest, ops: seq<Op>, i: nat)
    requires i < |ops| && ops[i].Say?
  {
    |StateOf(f, engine, m, ops, i)| <= MAX_STATE
  }

  /** The model in use after `i` and after `j` operations is the same. */
  predicate SameModel(f: Lib, engine: Engine, m: Manifest, ops: seq<Op>, i: nat, j: nat)
    requires i <= |ops| && j <= |ops|
  {
    Fingerprint(f, RefRun(f, engine, m, ops, i).manifest) == Fingerprint(f, RefRun(f, engine, m, ops, j).manifest)
  }

  /** What every operation adds to the record.  A turn whose state fits adds its own line, the engine's reply to what it
    * was asked, and that reply as its outcome; one whose state does not adds its line and the error; an update adds
    * nothing and puts its model in use. */
  lemma TurnRecorded(f: Lib, engine: Engine, m: Manifest, ops: seq<Op>, i: nat)
    requires i < |ops|
    ensures RefRun(f, engine, m, ops, 0) == Reference(m, Conversation(None, []), [])
    ensures var s, t := RefRun(f, engine, m, ops, i), RefRun(f, engine, m, ops, i + 1);
            match ops[i]
            case Update(manifest) => t == Reference(manifest, s.conversation, s.outcomes)
            case Say(message, _) =>
              var (asked, prior) := Asked(f, s.manifest, s.conversation, message);
              var (reply, state) := engine(asked, prior);
              && t.manifest == s.manifest
              && (|state| <= 4294967279 ==>
                   && t.conversation.transcript == s.conversation.transcript + [(User, message), (Assistant, reply)]
                   && t.outcomes == s.outcomes + [Ok(reply)])
              && (|state| > 4294967279 ==>
                   && t.conversation.transcript == s.conversation.transcript + [(User, message)]
                   && t.outcomes == s.outcomes + [Err(SceError)])
  {
    RunStep(f, engine, m, ops, i);
    if ops[i].Say? {
      var s, message := RefRun(f, engine, m, ops, i), ops[i].message;
      var (asked, prior) := Asked(f, s.manifest, s.conversation, message);
      var reply := engine(asked, prior).0;
      Associative(s.conversation.transcript, [(User, message)], [(Assistant, reply)]);
    }
  }

  /** An answered turn leaves a session with its state; a failed one keeps the session it resumed, and loses one that
    * it did not. */
  lemma SessionStep(f: Lib, engine: Engine, m: Manifest, ops: seq<Op>, j: nat)
    requires j < |ops|
    ensures var s, c := RefRun(f, engine, m, ops, j), RefRun(f, engine, m, ops, j + 1).conversation;
            if ops[j].Update? then c == s.conversation
            else
              && c.transcript != []
              && c.session == if StateFits(f, engine, m, ops, j)
                              then Some(Session(s.manifest, StateOf(f, engine, m, ops, j)))
                              else if Resumes(f, s.manifest, s.conversation) then s.conversation.session
                              else None
  {
    RunStep(f, engine, m, ops, j);
  }

  /** None of the turns from `i` on, up to the `n`-th operation, was answered. */
  predicate NoneAnswered(f: Lib, engine: Engine, m: Manifest, ops: seq<Op>, i: nat, n: nat)
    requires n <= |ops|
  {
    forall j :: i <= j < n && ops[j].Say? ==> !StateFits(f, engine, m, ops, j)
  }

  /** Turn `i` is the last that was answered. */
  predicate LastAnswered(f: Lib, engine: Engine, m: Manifest, ops: seq<Op>, i: nat, n: nat)
    requires n <= |ops|
  {
    i < n && ops[i].Say? && StateFits(f, engine, m, ops, i) && NoneAnswered(f, engine, m, ops, i + 1, n)
  }

  /** Every turn since turn `i` was taken under the model of turn `i`, so that none of them was a restart. */
  predicate NoRestart(f: Lib, engine: Engine, m: Manifest, ops: seq<Op>, i: nat, n: nat)
    requires n <= |ops|
  {
    forall j :: i < j < n && ops[j].Say? ==> SameModel(f, engine, m, ops, i, j)
  }

  lemma NoRestartStep(f: Lib, engine: Engine, m: Manifest, ops: seq<Op>, i: nat, n: nat)
    requires i < n < |ops|
    ensures NoRestart(f, engine, m, ops, i, n + 1) <==>
            NoRestart(f, engine, m, ops, i, n) && (ops[n].Say? ==> SameModel(f, engine, m, ops, i, n))
  {
  }

  /** The session is the last answered turn's, unless a restart failed since. */
  lemma {:induction false} SessionSince(f: Lib, engine: Engine, m: Manifest, ops: seq<Op>, i: nat, n: nat)
    requires n <= |ops| && LastAnswered(f, engine, m, ops, i, n)
    ensures RefRun(f, engine, m, ops, n).conversation.session ==
            if NoRestart(f, engine, m, ops, i, n)
            then Some(Session(RefRun(f, engine, m, ops, i).manifest, StateOf(f, engine, m, ops, i)))
            else None
    decreases n
  {
    if i + 1 < n {
      SessionSince(f, engine, m, ops, i, n - 1);
      NoRestartStep(f, engine, m, ops, i, n - 1);
      SessionStep(f, engine, m, ops, n - 1);
    } else {
      SessionStep(f, engine, m, ops, i);
    }
  }

  lemma {:induction false} NoSessionYet(f: Lib, engine: Engine, m: Manifest, ops: seq<Op>, n: nat)
    requires n <= |ops| && NoneAnswered(f, engine, m, ops, 0, n)
    ensures RefRun(f, engine, m, ops, n).conversation.session.None?
  {
    if n > 0 {
      NoSessionYet(f, engine, m, ops, n - 1);
      SessionStep(f, engine, m, ops, n - 1);
    }
  }

  /** What any turn asks of the engine, from the last turn that was answered.  It resumes from exactly the state that
    * turn produced when the model is again the one it ran under, through any updates to the same manifest or there and
    * back, and restarts from nothing with the whole transcript when it is not, this turn's line included.  But once a
    * restart has failed, the bare message is asked from nothing. */
  lemma TurnAsks(f: Lib, engine: Engine, m: Manifest, ops: seq<Op>, i: nat, n: nat, message: string)
    requires n <= |ops| && LastAnswered(f, engine, m, ops, i, n)
    ensures var t := RefRun(f, engine, m, ops, n);
            Asked(f, t.manifest, t.conversation, message) ==
            if !NoRestart(f, engine, m, ops, i, n) then (message, [])
            else if SameModel(f, engine, m, ops, i, n) then (message, StateOf(f, engine, m, ops, i))
            else (Replay(t.conversation.transcript + [(User, message)]), [])
  {
    SessionSince(f, engine, m, ops, i, n);
  }

  /** Before the first answered turn every turn asks its bare message from nothing. */
  lemma FirstTurnsAsk(f: Lib, engine: Engine, m: Manifest, ops: seq<Op>, n: nat, message: string)
    requires n <= |ops| && NoneAnswered(f, engine, m, ops, 0, n)
    ensures var t := RefRun(f, engine, m, ops, n);
            Asked(f, t.manifest, t.conversation, message) == (message, [])
  {
    NoSessionYet(f, engine, m, ops, n);
  }

  /** When only model updates came since an answered turn, no restart can have failed. */
  lemma NextTurnAsks(f: Lib, engine: Engine, m: Manifest, ops: seq<Op>, i: nat, n: nat, s: Reference, t: Reference,
                     message: string)
    requires i < n <= |ops| && ops[i].Say? && forall j :: i < j < n ==> ops[j].Update?
    requires s == RefRun(f, engine, m, ops, i) && t == RefRun(f, engine, m, ops, n)
    requires Turn(f, engine, s.manifest, s.conversation, ops[i].message).0.Ok?
    ensures var (asked, prior) := Asked(f, s.manifest, s.conversation, ops[i].message);
            Asked(f, t.manifest, t.conversation, message) ==
            if Fingerprint(f, s.manifest) == Fingerprint(f, t.manifest) then (message, engine(asked, prior).1)
            else (Replay(t.conversation.transcript + [(User, message)]), [])
  {
    TurnAsks(f, engine, m, ops, i, n, message);
  }

  /** Turn `j` fails and leaves no session: it met none, or it was a restart. */
  predicate Forgets(f: Lib, engine: Engine, m: Manifest, ops: seq<Op>, j: nat)
    requires j < |ops| && ops[j].Say?
  {
    var s := RefRun(f, engine, m, ops, j);
    && !StateFits(f, engine, m, ops, j)
    && (s.conversation.session.None? || !Resumes(f, s.manifest, s.conversation))
  }

  ghost predicate HasForgotten(f: Lib, engine: Engine, m: Manifest, ops: seq<Op>, n: nat)
    requires n <= |ops|
  {
    exists j :: 0 <= j < n && ops[j].Say? && Forgets(f, engine, m, ops, j) && NoneAnswered(f, engine, m, ops, j + 1, n)
  }

  lemma ForgottenStep(f: Lib, engine: Engine, m: Manifest, ops: seq<Op>, n: nat)
    requires n < |ops|
    ensures ops[n].Update? ==> (HasForgotten(f, engine, m, ops, n + 1) <==> HasForgotten(f, engine, m, ops, n))
    ensures ops[n].Say? && StateFits(f, engine, m, ops, n) ==> !HasForgotten(f, engine, m, ops, n + 1)
    ensures ops[n].Say? && Forgets(f, engine, m, ops, n) ==> HasForgotten(f, engine, m, ops, n + 1)
    ensures ops[n].Say? && !StateFits(f, engine, m, ops, n) && !Forgets(f, engine, m, ops, n) ==>
              (HasForgotten(f, engine, m, ops, n + 1) <==> HasForgotten(f, engine, m, ops, n))
  {
    forall j | 0 <= j <= n
      ensures NoneAnswered(f, engine, m, ops, j, n + 1) <==>
              NoneAnswered(f, engine, m, ops, j, n) && (ops[n].Say? ==> !StateFits(f, engine, m, ops, n))
    {
    }
    assert NoneAnswered(f, engine, m, ops, n + 1, n + 1);
  }

  /** Exactly when the next turn silently drops a conversation, its transcript not empty: when some turn failed that
    * met no session or was a restart, and no turn was answered since. */
  lemma {:induction false} ForgottenIff(f: Lib, engine: Engine, m: Manifest, ops: seq<Op>, n: nat)
    requires n <= |ops|
    ensures var c := RefRun(f, engine, m, ops, n).conversation;
            c.session.None? && c.transcript != [] <==> HasForgotten(f, engine, m, ops, n)
  {
    if n > 0 {
      ForgottenIff(f, engine, m, ops, n - 1);
      SessionStep(f, engine, m, ops, n - 1);
      ForgottenStep(f, engine, m, ops, n - 1);
    }
  }

  /** Its state outgrows an envelope when it is asked more than three characters. */
  function ShortEngine(): Engine {
    (q: string, _: Bytes) => ("", if |q| > 3 then Zeros(MAX_STATE + 1) else [])
  }

  lemma ShortTurnThenUpdate(f: Lib, m1: Manifest, m2: Manifest, d1: Draw, op: Op)
    ensures RefRun(f, ShortEngine(), m1, [Say("a", d1), Update(m2), op], 2) ==
            Reference(m2, Conversation(Some(Session(m1, [])), [(User, "a"), (Assistant, "")]), [Ok("")])
  {
    var ops := [Say("a", d1), Update(m2), op];
    assert RefRun(f, ShortEngine(), m1, ops, 0) == Reference(m1, Conversation(None, []), []);
    RunStep(f, ShortEngine(), m1, ops, 0);
    RunStep(f, ShortEngine(), m1, ops, 1);
    assert [] + [(User, "a")] + [(Assistant, "")] == [(User, "a"), (Assistant, "")];
  }

  lemma LongReplay(t: seq<Line>, l: Line)
    requires t != []
    ensures |Replay(t + [l])| > 3
  {
    ReplaySnoc(t, l);
  }

  /** A replay that makes the engine's state outgrow an envelope is such a turn: the next message goes out bare, with
    * three lines of transcript behind it. */
  lemma FailedRestartForgets(f: Lib, m1: Manifest, m2: Manifest, d1: Draw, d2: Draw)
    requires Fingerprint(f, m1) != Fingerprint(f, m2)
    ensures var t := RefRun(f, ShortEngine(), m1, [Say("a", d1), Update(m2), Say("b", d2)], 3);
            && t.conversation.transcript == [(User, "a"), (Assistant, ""), (User, "b")]
            && Asked(f, t.manifest, t.conversation, "c") == ("c", [])
  {
    var ops := [Say("a", d1), Update(m2), Say("b", d2)];
    ShortTurnThenUpdate(f, m1, m2, d1, Say("b", d2));
    LongReplay([(User, "a"), (Assistant, "")], (User, "b"));
    TurnRecorded(f, ShortEngine(), m1, ops, 2);
    SessionStep(f, ShortEngine(), m1, ops, 2);
  }

  // The transcript

  /** Lines alternate between user and assistant, two to a turn. */
  predicate Paired(t: seq<Line>) {
    |t| % 2 == 0 && Alternates(t)
  }

  predicate Alternates(t: seq<Line>) {
    forall i :: 0 <= i < |t| ==> t[i].0 == (if i % 2 == 0 then User else Assistant)
  }

  predicate AllAnswered(outcomes: seq<Result<string>>) {
    forall r :: r in outcomes ==> r.Ok?
  }

  lemma RefStepAnswered(f: Lib, engine: Engine, s: Reference, op: Op)
    ensures var s' := RefStep(f, engine, s, op);
            && (AllAnswered(s'.outcomes) <==>
                AllAnswered(s.outcomes) && (op.Say? ==> s'.outcomes[|s.outcomes|].Ok?))
            && |s'.outcomes| == |s.outcomes| + (if op.Say? then 1 else 0)
  {
    var s' := RefStep(f, engine, s, op);
    if op.Say? {
      assert s'.outcomes == s.outcomes + [s'.outcomes[|s.outcomes|]];
      assert forall r :: r in s'.outcomes <==> r in s.outcomes || r == s'.outcomes[|s.outcomes|];
    }
  }

  /** The transcript alternates, with two lines a turn, exactly as long as every turn was answered: a turn that
    * ends in an exception leaves the user's line without a partner, and no later turn repairs that. */
  lemma {:induction false} PairedIffAllAnswered(f: Lib, engine: Engine, m: Manifest, ops: seq<Op>, n: nat)
    requires n <= |ops|
    ensures var s := RefRun(f, engine, m, ops, n);
            && (Paired(s.conversation.transcript) <==> AllAnswered(s.outcomes))
            && (AllAnswered(s.outcomes) ==> |s.conversation.transcript| == 2 * |s.outcomes|)
            && (!AllAnswered(s.outcomes) ==>
                 |s.conversation.transcript| % 2 == 1 || !Alternates(s.conversation.transcript))
  {
    if n > 0 {
      PairedIffAllAnswered(f, engine, m, ops, n - 1);
      var s, op := RefRun(f, engine, m, ops, n - 1), ops[n - 1];
      RefStepAnswered(f, engine, s, op);
      if op.Say? {
        var t := s.conversation.transcript;
        var t' := RefRun(f, engine, m, ops, n).conversation.transcript;
        assert t <= t' && t'[|t|] == (User, op.message);
        assert Alternates(t') ==> Alternates(t) && |t| % 2 == 0 by {
          if Alternates(t') {
            assert forall i :: 0 <= i < |t| ==> t[i] == t'[i];
          }
        }
      }
    }
  }

  predicate StatesFit(f: Lib, engine: Engine, m: Manifest, ops: seq<Op>, n: nat)
    requires n <= |ops|
  {
    forall i :: 0 <= i < n && ops[i].Say? ==> StateFits(f, engine, m, ops, i)
  }

  lemma TurnAnswered(f: Lib, engine: Engine, m: Manifest, ops: seq<Op>, i: nat)
    requires i < |ops|
    ensures AllAnswered(RefRun(f, engine, m, ops, i + 1).outcomes) <==>
            AllAnswered(RefRun(f, engine, m, ops, i).outcomes) && (ops[i].Say? ==> StateFits(f, engine, m, ops, i))
  {
    RunStep(f, engine, m, ops, i);
    RefStepAnswered(f, engine, RefRun(f, engine, m, ops, i), ops[i]);
  }

  /** `say` fails in no turn exactly when the state the engine returns in each turn fits one envelope. */
  lemma {:induction false} AnsweredIffStatesFit(f: Lib, engine: Engine, m: Manifest, ops: seq<Op>, n: nat)
    requires n <= |ops|
    ensures AllAnswered(RefRun(f, engine, m, ops, n).outcomes) <==> StatesFit(f, engine, m, ops, n)
  {
    if n > 0 {
      AnsweredIffStatesFit(f, engine, m, ops, n - 1);
      TurnAnswered(f, engine, m, ops, n - 1);
    }
  }

  /** So the transcript alternates, with two lines a turn, exactly when every state fits. */
  lemma PairedIffStatesFit(f: Lib, engine: Engine, m: Manifest, ops: seq<Op>, n: nat)
    requires n <= |ops|
    ensures var s := RefRun(f, engine, m, ops, n);
            && (Paired(s.conversation.transcript) <==> StatesFit(f, engine, m, ops, n))
            && (StatesFit(f, engine, m, ops, n) ==> |s.conversation.transcript| == 2 * |s.outcomes|)
  {
    PairedIffAllAnswered(f, engine, m, ops, n);
    AnsweredIffStatesFit(f, engine, m, ops, n);
  }

  /** No turn fails, and the transcript pairs up, while the states fit; in particular under an engine whose states
    * always do. */
  lemma TurnsNeverFail(f: Lib, engine: Engine, m: Manifest, ops: seq<Op>, n: nat)
    requires n <= |ops|
    requires StatesFit(f, engine, m, ops, n) || forall message, prior :: |engine(message, prior).1| <= MAX_STATE
    ensures var s := RefRun(f, engine, m, ops, n);
            AllAnswered(s.outcomes) && Paired(s.conversation.transcript)
  {
    AnsweredIffStatesFit(f, engine, m, ops, n);
    PairedIffAllAnswered(f, engine, m, ops, n);
  }

  // An engine whose state only grows

  /** Whatever it is asked, its new state is at least as long as the one it was given. */
  ghost predicate Grows(engine: Engine) {
    forall message, prior :: |engine(message, prior).1| >= |prior|
  }

  /** The state after the first `n` operations if nothing ever limited it: the messages alone, fed to the engine. */
  function History(engine: Engine, ops: seq<Op>, n: nat): Bytes
    requires n <= |ops|
  {
    if n == 0 then []
    else if ops[n - 1].Update? then History(engine, ops, n - 1)
    else engine(ops[n - 1].message, History(engine, ops, n - 1)).1
  }

  /** All updates among the first `n` operations are to the model in use at the start. */
  predicate OneModel(f: Lib, m: Manifest, ops: seq<Op>, n: nat)
    requires n <= |ops|
  {
    forall i :: 0 <= i < n && ops[i].Update? ==> Fingerprint(f, ops[i].manifest) == Fingerprint(f, m)
  }

  /** What the stateful server keeps while every turn is answered. */
  predicate Keeps(f: Lib, m: Manifest, s: Reference, history: Bytes) {
    && Fingerprint(f, s.manifest) == Fingerprint(f, m)
    && match s.conversation.session
       case None => history == []
       case Some(session) => Fingerprint(f, session.manifest) == Fingerprint(f, m) && session.state == history
  }

  lemma KeepsStep(f: Lib, engine: Engine, m: Manifest, s: Reference, op: Op, history: Bytes)
    requires Keeps(f, m, s, history) && (op.Update? ==> Fingerprint(f, op.manifest) == Fingerprint(f, m))
    ensures op.Update? ==> Keeps(f, m, RefStep(f, engine, s, op), history)
    ensures op.Say? ==>
              && Asked(f, s.manifest, s.conversation, op.message) == (op.message, history)
              && (|engine(op.message, history).1| <= MAX_STATE ==>
                   Keeps(f, m, RefStep(f, engine, s, op), engine(op.message, history).1))
  {
  }

  /** Under one model a growing engine's turns are all answered exactly when its history still fits at the end, which
    * the messages tell beforehand. */
  lemma {:induction false} AnsweredIffHistoryFits(f: Lib, engine: Engine, m: Manifest, ops: seq<Op>, n: nat)
    requires n <= |ops| && Grows(engine) && OneModel(f, m, ops, n)
    ensures AllAnswered(RefRun(f, engine, m, ops, n).outcomes) <==> |History(engine, ops, n)| <= MAX_STATE
    ensures |History(engine, ops, n)| <= MAX_STATE ==>
              Keeps(f, m, RefRun(f, engine, m, ops, n), History(engine, ops, n))
  {
    if n > 0 {
      var s, op, history := RefRun(f, engine, m, ops, n - 1), ops[n - 1], History(engine, ops, n - 1);
      AnsweredIffHistoryFits(f, engine, m, ops, n - 1);
      TurnAnswered(f, engine, m, ops, n - 1);
      if |history| <= MAX_STATE {
        KeepsStep(f, engine, m, s, op, history);
      }
    }
  }

  // The adapter's own engine

  /** `_run_model`'s text: the turn and the reply appended to the history, a line break between turns. */
  function RunModel(history: string, message: string, reply: string): string {
    (if history == "" then "" else history + "\n") + "user:" + message + "\nassistant:" + reply
  }

  lemma RunModelIs(message: string, reply: string, history: string)
    ensures RunModel("", message, reply) == "user:" + message + "\nassistant:" + reply
    ensures history != "" ==>
              RunModel(history, message, reply) == history + "\nuser:" + message + "\nassistant:" + reply
  {
  }

  /** `_run_model` on encoded states, with any rule for the reply.  `RunsModel` ties its bytes to the text. */
  function AdapterEngine(reply: (string, Bytes) -> string): Engine {
    (message: string, prior: Bytes) =>
      var text := RunModel("", message, reply(message, prior));
      (reply(message, prior), if prior == [] then Utf8.Encode(text) else prior + Utf8.Encode("\n" + text))
  }

  /** On a state that decodes to a history the engine returns the encoding of the history that goes on from it. */
  lemma RunsModel(reply: (string, Bytes) -> string, message: string, history: string)
    ensures var prior := Utf8.Encode(history);
            AdapterEngine(reply)(message, prior) ==
            (reply(message, prior), Utf8.Encode(RunModel(history, message, reply(message, prior))))
  {
    var text := RunModel("", message, reply(message, Utf8.Encode(history)));
    if history != "" {
      Utf8.EncodeAppend(history, "\n" + text);
      assert RunModel(history, message, reply(message, Utf8.Encode(history))) == history + ("\n" + text);
    }
  }

  lemma AdapterGrows(reply: (string, Bytes) -> string)
    ensures Grows(AdapterEngine(reply))
  {
  }

  ghost predicate IsText(b: Bytes) {
    exists s :: Utf8.Encode(s) == b
  }

  lemma PriorIsText(f: Lib, m: Manifest, c: Conversation, message: string)
    requires c.session.Some? ==> IsText(c.session.value.state)
    ensures IsText(Asked(f, m, c, message).1)
  {
    assert Utf8.Encode("") == [];
  }

  lemma RunsToText(reply: (string, Bytes) -> string, message: string, prior: Bytes)
    requires IsText(prior)
    ensures IsText(AdapterEngine(reply)(message, prior).1)
  {
    var history :| Utf8.Encode(history) == prior;
    RunsModel(reply, message, history);
  }

  lemma {:induction false} AdapterSessionDecodes(f: Lib, reply: (string, Bytes) -> string, m: Manifest, ops: seq<Op>,
                                                 n: nat)
    requires n <= |ops|
    ensures var session := RefRun(f, AdapterEngine(reply), m, ops, n).conversation.session;
            session.Some? ==> IsText(session.value.state)
  {
    if n > 0 {
      var s := RefRun(f, AdapterEngine(reply), m, ops, n - 1);
      AdapterSessionDecodes(f, reply, m, ops, n - 1);
      SessionStep(f, AdapterEngine(reply), m, ops, n - 1);
      if ops[n - 1].Say? {
        var (asked, prior) := Asked(f, s.manifest, s.conversation, ops[n - 1].message);
        PriorIsText(f, s.manifest, s.conversation, ops[n - 1].message);
        RunsToText(reply, asked, prior);
      }
    }
  }

  /** In every run each state that the adapter's engine is handed decodes. */
  lemma AdapterStatesDecode(f: Lib, reply: (string, Bytes) -> string, m: Manifest, ops: seq<Op>, n: nat,
                            message: string)
    requires n <= |ops|
    ensures var s := RefRun(f, AdapterEngine(reply), m, ops, n);
            IsText(Asked(f, s.manifest, s.conversation, message).1)
  {
    var s := RefRun(f, AdapterEngine(reply), m, ops, n);
    AdapterSessionDecodes(f, reply, m, ops, n);
    PriorIsText(f, s.manifest, s.conversation, message);
  }

  /** So the adapter's turns under one model are all answered exactly when the history of its messages fits. */
  lemma AdapterAnswersIff(f: Lib, reply: (string, Bytes) -> string, m: Manifest, ops: seq<Op>, n: nat)
    requires n <= |ops| && OneModel(f, m, ops, n)
    ensures AllAnswered(RefRun(f, AdapterEngine(reply), m, ops, n).outcomes) <==>
            |History(AdapterEngine(reply), ops, n)| <= MAX_STATE
  {
    AdapterGrows(reply);
    AnsweredIffHistoryFits(f, AdapterEngine(reply), m, ops, n);
  }

  // A concrete failure

  /** An engine whose state outgrows an envelope makes the very first turn fail, with the user's line left alone. */
  lemma LongStateFails(f: Lib, m: Manifest, message: string, d: Draw)
    ensures var engine: Engine := (_: string, _: Bytes) => ("", Zeros(MAX_STATE + 1));
            var s := RefRun(f, engine, m, [Say(message, d)], 1);
            s.outcomes == [Err(SceError)] && s.conversation.transcript == [(User, message)]
  {
    var engine: Engine := (_: string, _: Bytes) => ("", Zeros(MAX_STATE + 1));
    assert RefRun(f, engine, m, [Say(message, d)], 0) == Reference(m, Conversation(None, []), []);
  }
}
