// The line-framed key/value server of cpp/server.cpp: received chunks are reassembled
// into newline-terminated messages, each message is cut into tokens and run against the
// store through a workspace whose fields outlive the message. Receives, send failures
// and storage faults come from outside.
module KeyValueServer {
  import opened Basics

  // ---------- Tokens ----------

  /** std::string::find from position 0; the length of s stands for npos. */
  function Find(s: string, c: char): (i: nat)
    ensures i <= |s| && c !in s[..i]
    ensures i < |s| ==> s[i] == c
    ensures i == |s| <==> c !in s
  {
    if s == [] || s[0] == c then 0 else 1 + Find(s[1..], c)
  }

  function Split(s: string, c: char): (tokens: seq<string>)
    ensures tokens != []
    decreases |s|
  {
    var i := Find(s, c);
    if i == |s| then [s] else [s[..i]] + Split(s[i + 1..], c)
  }

  function Join(tokens: seq<string>, c: char): string
    requires tokens != []
  {
    if |tokens| == 1 then tokens[0] else tokens[0] + [c] + Join(tokens[1..], c)
  }

  lemma {:induction false} FindMark(a: string, c: char, rest: string)
    requires c !in a
    ensures Find(a + [c] + rest, c) == |a|
    ensures Find(a, c) == |a|
  {
    if a == [] {
    } else {
      assert (a + [c] + rest)[1..] == a[1..] + [c] + rest;
      FindMark(a[1..], c, rest);
    }
  }

  lemma SplitMark(a: string, c: char, rest: string)
    requires c !in a
    ensures Split(a + [c] + rest, c) == [a] + Split(rest, c)
    ensures Split(a, c) == [a]
  {
    FindMark(a, c, rest);
    hide Find;
    var s := a + [c] + rest;
    assert s[..|a|] == a && s[|a| + 1..] == rest;
  }

  /** Cutting inverts joining for tokens that do not contain the delimiter. */
  lemma {:induction false} SplitJoin(tokens: seq<string>, c: char)
    requires tokens != [] && forall t :: t in tokens ==> c !in t
    ensures Split(Join(tokens, c), c) == tokens
  {
    hide Split;
    if |tokens| > 1 {
      SplitMark(tokens[0], c, Join(tokens[1..], c));
      SplitJoin(tokens[1..], c);
    } else {
      SplitMark(tokens[0], c, []);
    }
  }

  /** And joining inverts cutting, whose pieces never contain the delimiter. */
  lemma {:induction false} JoinSplit(s: string, c: char)
    ensures Join(Split(s, c), c) == s
    ensures forall t :: t in Split(s, c) ==> c !in t
    decreases |s|
  {
    var i := Find(s, c);
    if i == |s| {
    } else {
      JoinSplit(s[i + 1..], c);
      var rest := Split(s[i + 1..], c);
      assert Split(s, c) == [s[..i]] + rest && ([s[..i]] + rest)[1..] == rest;
      assert s == s[..i] + [c] + s[i + 1..];
    }
  }

  // ---------- One message ----------

  type Store = map<string, string>

  datatype Status = Ok(msg: string) | Error(errMsg: string)

  // The fields of a ClientWorkSpace.
  datatype Fields = Fields(op: string, key: string, val: string)

  /** parseMessage: missing tokens leave the old fields, and more than three leave them all. */
  function Parse(msg: string, before: Fields): Fields {
    var tokens := Split(msg, ' ');
    if |tokens| > 3 then before
    else Fields(tokens[0],
                if |tokens| > 1 then tokens[1] else before.key,
                if |tokens| > 2 then tokens[2] else before.val)
  }

  datatype Effect = Effect(fields: Fields, store: Store, status: Status)

  /** The operation named by the fields; fault says that the storage engine reports an error. */
  function Execute(f: Fields, store: Store, fault: bool): Effect {
    if f.op == "get" then
      if !fault && f.key in store then
        Effect(f.(val := store[f.key]), store, Ok("Get success. <key: " + f.key + ", val: " + store[f.key] + ">"))
      else Effect(f, store, Error("Fail to execute 'get' op for key " + f.key))
    else if f.op == "put" then
      if fault then Effect(f, store, Error("Fail to execute 'put' op for <key: " + f.key + ", val: " + f.val + ">"))
      else Effect(f, store[f.key := f.val], Ok("Put success. <key: " + f.key + ", val: " + f.val + ">"))
    else if f.op == "delete" then
      if fault then Effect(f, store, Error("Fail to execute 'delete' op for key " + f.key))
      else Effect(f, store - {f.key}, Ok("Delete success. key: " + f.key))
    else Effect(f, store, Error("Warning: unknown operation " + f.op))
  }

  function Process(msg: string, before: Fields, store: Store, fault: bool): Effect {
    Execute(Parse(msg, before), store, fault)
  }

  function Response(status: Status): string {
    "Echo: " + (match status case Ok(msg) => msg case Error(errMsg) => errMsg) + "\n"
  }

  // The operation, key and value a message stands for, given the fields left by the last one.
  ghost function Named(msg: string, before: Fields): (string, string, string) {
    var tokens := Split(msg, ' ');
    var n := |tokens|;
    (if n > 3 then before.op else tokens[0],
     if n == 2 || n == 3 then tokens[1] else before.key,
     if n == 3 then tokens[2] else before.val)
  }

  /** What a message does, faults and missing or surplus tokens included. No other key than
      its own changes; a get, an unknown operation and a faulted one change nothing at all. */
  lemma MessageEffects(msg: string, before: Fields, store: Store, fault: bool)
    ensures var e, (op, key, val) := Process(msg, before, store, fault), Named(msg, before);
      && (forall k :: k != key ==> (k in e.store <==> k in store) && (k in store ==> e.store[k] == store[k]))
      && (fault || (op != "put" && op != "delete") ==> e.store == store)
      && (op == "put" && !fault ==> key in e.store && e.store[key] == val)
      && (op == "delete" && !fault ==> key !in e.store)
      && e.fields.op == op && e.fields.key == key
      && e.fields.val == if op == "get" && !fault && key in store then store[key] else val
  {
    hide Split;
  }

  /** And what it is answered. */
  lemma MessageAnswer(msg: string, before: Fields, store: Store, fault: bool)
    ensures var (op, key, val) := Named(msg, before);
      Response(Process(msg, before, store, fault).status) == "Echo: " + (
        if op == "get" then
          if fault || key !in store then "Fail to execute 'get' op for key " + key
          else "Get success. <key: " + key + ", val: " + store[key] + ">"
        else if op == "put" then
          if fault then "Fail to execute 'put' op for <key: " + key + ", val: " + val + ">"
          else "Put success. <key: " + key + ", val: " + val + ">"
        else if op == "delete" then
          if fault then "Fail to execute 'delete' op for key " + key else "Delete success. key: " + key
        else "Warning: unknown operation " + op) + "\n"
  {
    hide Split;
  }

  class Database {
    var content: Store

    constructor ()
      ensures content == map[]
    {
      content := map[];
    }
  }

  class ClientWorkSpace {
    var op: string
    var key: string
    var val: string

    constructor ()
      ensures op == key == val == ""
    {
      op, key, val := "", "", "";
    }

    ghost function Now(): Fields
      reads this
    {
      Fields(op, key, val)
    }

    method ParseMessage(msg: string)
      modifies this
      ensures Now() == Parse(msg, old(Now()))
    {
      var tokens: seq<string> := [];
      var rest := msg;
      var end := Find(rest, ' ');
      while end != |rest|
        invariant tokens + Split(rest, ' ') == Split(msg, ' ')
        invariant end == Find(rest, ' ')
        decreases |rest|
      {
        tokens := tokens + [rest[..end]];
        rest := rest[end + 1..];
        end := Find(rest, ' ');
      }
      tokens := tokens + [rest];
      if |tokens| <= 3 {
        op := tokens[0];
        if |tokens| > 1 {
          key := tokens[1];
        }
        if |tokens| > 2 {
          val := tokens[2];
        }
      }
    }

    method ProcessMessage(msg: string, db: Database, fault: bool) returns (status: Status)
      modifies this, db
      ensures Effect(Now(), db.content, status) == Process(msg, old(Now()), old(db.content), fault)
    {
      ParseMessage(msg);
      if op == "get" {
        if !fault && key in db.content {
          val := db.content[key];
          status := Ok("Get success. <key: " + key + ", val: " + val + ">");
        } else {
          status := Error("Fail to execute 'get' op for key " + key);
        }
      } else if op == "put" {
        if !fault {
          db.content := db.content[key := val];
          status := Ok("Put success. <key: " + key + ", val: " + val + ">");
        } else {
          status := Error("Fail to execute 'put' op for <key: " + key + ", val: " + val + ">");
        }
      } else if op == "delete" {
        if !fault {
          db.content := db.content - {key};
          status := Ok("Delete success. key: " + key);
        } else {
          status := Error("Fail to execute 'delete' op for key " + key);
        }
      } else {
        status := Error("Warning: unknown operation " + op);
      }
    }
  }

  /** The message names an operation and every field that this operation reads. */
  predicate SelfContained(msg: string) {
    var tokens := Split(msg, ' ');
    && |tokens| <= 3
    && (tokens[0] == "get" || tokens[0] == "delete" ==> |tokens| >= 2)
    && (tokens[0] == "put" ==> |tokens| == 3)
  }

  // The visible part of an effect: the response and the store.
  ghost predicate SameVisibly(a: Effect, b: Effect) {
    Response(a.status) == Response(b.status) && a.store == b.store
  }

  ghost predicate HidesOldFields(msg: string) {
    forall f1: Fields, f2: Fields, store: Store, fault: bool ::
      SameVisibly(Process(msg, f1, store, fault), Process(msg, f2, store, fault))
  }

  // Two workspaces that one message can tell apart, when its own fields do not suffice.
  ghost function Witness(msg: string, mark: string): Fields {
    var tokens := Split(msg, ' ');
    if |tokens| > 3 then Fields(mark, "", "") else if |tokens| == 1 then Fields("", mark, "") else Fields("", "", mark)
  }

  lemma WitnessesDiffer(msg: string)
    requires !SelfContained(msg)
    ensures !SameVisibly(Process(msg, Witness(msg, "x"), map[], false), Process(msg, Witness(msg, "y"), map[], false))
  {
    var tokens := Split(msg, ' ');
    var a, b := Process(msg, Witness(msg, "x"), map[], false), Process(msg, Witness(msg, "y"), map[], false);
    if |tokens| > 3 {
      assert a.status == Error("Warning: unknown operation " + "x");
      assert b.status == Error("Warning: unknown operation " + "y");
      ResponsesDiffer("Warning: unknown operation ", "x", "y");
    } else if tokens[0] == "put" {
      var key := if |tokens| == 1 then "x" else tokens[1];
      assert a.store == map[][key := if |tokens| == 1 then "" else "x"];
      assert key in a.store && (key !in b.store || a.store[key] != b.store[key]);
    } else if tokens[0] == "get" {
      assert a.status == Error("Fail to execute 'get' op for key " + "x");
      assert b.status == Error("Fail to execute 'get' op for key " + "y");
      ResponsesDiffer("Fail to execute 'get' op for key ", "x", "y");
    } else {
      assert a.status == Ok("Delete success. key: " + "x");
      assert b.status == Ok("Delete success. key: " + "y");
      ResponsesDiffer("Delete success. key: ", "x", "y");
    }
  }

  lemma ResponsesDiffer(text: string, x: string, y: string)
    requires |x| == |y| == 1 && x != y
    ensures Response(Ok(text + x)) != Response(Ok(text + y))
    ensures Response(Error(text + x)) != Response(Error(text + y))
  {
    var at := |"Echo: " + text|;
    assert Response(Ok(text + x))[at] == x[0] && Response(Ok(text + y))[at] == y[0];
    assert Response(Error(text + x))[at] == x[0] && Response(Error(text + y))[at] == y[0];
  }

  /** Stale workspace fields stay hidden exactly when the message is self-contained. */
  lemma StaleFieldsHiddenIff(msg: string)
    ensures HidesOldFields(msg) <==> SelfContained(msg)
  {
    if !SelfContained(msg) {
      WitnessesDiffer(msg);
    }
  }

  // ---------- The receive loop ----------

  // One return of recv.
  datatype Receive = Data(bytes: string) | Interrupted | Disconnected | Broken

  /** The bytes that arrive before the connection ends. */
  ghost function Received(receives: seq<Receive>): string {
    if receives == [] then []
    else match receives[0]
      case Data(bytes) => bytes + Received(receives[1..])
      case Interrupted => Received(receives[1..])
      case Disconnected | Broken => []
  }

  /** Messages on the wire: each one ended by a newline. */
  ghost function Frame(messages: seq<string>): string {
    if messages == [] then [] else messages[0] + "\n" + Frame(messages[1..])
  }

  ghost predicate NewlineFree(messages: seq<string>) {
    forall m :: m in messages ==> '\n' !in m
  }

  datatype Session = Session(fields: Fields, store: Store, responses: seq<string>)

  /** Running messages one by one through one workspace; faults(k) afflicts the k-th. */
  ghost function RunMessages(messages: seq<string>, start: Session, faults: nat -> bool): Session {
    if messages == [] then start else
      var n := |messages| - 1;
      var before := RunMessages(messages[..n], start, faults);
      var effect := Process(messages[n], before.fields, before.store, faults(n));
      Session(effect.fields, effect.store, before.responses + [Response(effect.status)])
  }

  /** Two sessions over the same messages, storage faults included, give the same responses
      and stores whatever their workspaces held before, if every message is self-contained. */
  lemma {:induction false} SelfContainedSessionsForget(messages: seq<string>, a: Session, b: Session, faults: nat -> bool)
    requires forall m :: m in messages ==> SelfContained(m)
    requires a.store == b.store && a.responses == b.responses
    ensures var s, t := RunMessages(messages, a, faults), RunMessages(messages, b, faults);
      s.store == t.store && s.responses == t.responses
  {
    if messages == [] {
    } else {
      var n := |messages| - 1;
      SelfContainedSessionsForget(messages[..n], a, b, faults);
      var s, t := RunMessages(messages[..n], a, faults), RunMessages(messages[..n], b, faults);
      StaleFieldsHiddenIff(messages[n]);
      hide Process;
      assert SameVisibly(Process(messages[n], s.fields, s.store, faults(n)), Process(messages[n], t.fields, t.store, faults(n)));
    }
  }

  /** Sessions in this vocabulary never show what the workspace held at their start. */
  ghost predicate SessionsForget(vocabulary: set<string>) {
    forall messages: seq<string>, a: Session, b: Session, faults: nat -> bool ::
      (forall m :: m in messages ==> m in vocabulary) && a.store == b.store && a.responses == b.responses ==>
      var s, t := RunMessages(messages, a, faults), RunMessages(messages, b, faults);
      s.store == t.store && s.responses == t.responses
  }

  /** A vocabulary is safe for whole sessions exactly when each of its messages is self-contained. */
  lemma SessionsForgetIff(vocabulary: set<string>)
    ensures SessionsForget(vocabulary) <==> forall m :: m in vocabulary ==> SelfContained(m)
  {
    if forall m :: m in vocabulary ==> SelfContained(m) {
      forall messages: seq<string>, a: Session, b: Session, faults: nat -> bool
        | (forall m :: m in messages ==> m in vocabulary) && a.store == b.store && a.responses == b.responses
        ensures var s, t := RunMessages(messages, a, faults), RunMessages(messages, b, faults);
          s.store == t.store && s.responses == t.responses
      {
        SelfContainedSessionsForget(messages, a, b, faults);
      }
    } else {
      var m :| m in vocabulary && !SelfContained(m);
      var a, b := Session(Witness(m, "x"), map[], []), Session(Witness(m, "y"), map[], []);
      var faults := (k: nat) => false;
      WitnessesDiffer(m);
      hide Process;
      assert [m][..0] == [];
      assert RunMessages([], a, faults) == a && RunMessages([], b, faults) == b;
      var s, t := RunMessages([m], a, faults), RunMessages([m], b, faults);
      assert s.responses == [] + [Response(Process(m, a.fields, map[], false).status)];
      assert t.responses == [] + [Response(Process(m, b.fields, map[], false).status)];
      assert s.store != t.store || s.responses[0] != t.responses[0];
      assert forall m' :: m' in [m] ==> m' in vocabulary;
    }
  }

  const EMPTY := Session(Fields("", "", ""), map[], [])

  /** No two histories of a connection that leave the same store can be told apart by the
      message that comes next. */
  ghost predicate HidesHistory(msg: string) {
    forall h1: seq<string>, h2: seq<string>, faults: nat -> bool, fault: bool ::
      NewlineFree(h1) && NewlineFree(h2)
      && RunMessages(h1, EMPTY, faults).store == RunMessages(h2, EMPTY, faults).store ==>
      var s, t := RunMessages(h1, EMPTY, faults), RunMessages(h2, EMPTY, faults);
      SameVisibly(Process(msg, s.fields, s.store, fault), Process(msg, t.fields, t.store, fault))
  }

  // The one message that makes a fresh connection hold the witness, and touches no store.
  ghost function WitnessMessage(msg: string, mark: string): string {
    var tokens := Split(msg, ' ');
    if |tokens| > 3 then mark else if |tokens| == 1 then " " + mark else "  " + mark
  }

  lemma WitnessParses(msg: string, mark: string)
    requires mark == "x" || mark == "y"
    ensures Parse(WitnessMessage(msg, mark), Fields("", "", "")) == Witness(msg, mark)
  {
    hide Split;
    SplitMark(mark, ' ', "");
    SplitMark("", ' ', mark);
    SplitMark("", ' ', " " + mark);
    assert [] + [' '] + mark == " " + mark && [] + [' '] + (" " + mark) == "  " + mark;
    var one, two, three := Parse(mark, Fields("", "", "")), Parse(" " + mark, Fields("", "", "")), Parse("  " + mark, Fields("", "", ""));
    assert one == Fields(mark, "", "");
    assert two == Fields("", mark, "");
    assert three == Fields("", "", mark);
  }

  lemma WitnessIsReachable(msg: string, mark: string, faults: nat -> bool)
    requires mark == "x" || mark == "y"
    ensures NewlineFree([WitnessMessage(msg, mark)])
    ensures var s := RunMessages([WitnessMessage(msg, mark)], EMPTY, faults);
      s.fields == Witness(msg, mark) && s.store == map[]
  {
    var m := WitnessMessage(msg, mark);
    WitnessParses(msg, mark);
    hide Split;
    hide Parse;
    assert [m][..0] == [];
    assert RunMessages([], EMPTY, faults) == EMPTY;
    var effect := Process(m, Fields("", "", ""), map[], faults(0));
    assert effect.fields == Witness(msg, mark) && effect.store == map[];
    hide Process;
    hide Witness;
  }

  /** What a client sees of a message is free of the connection's history exactly when the
      message is self-contained: the fields that give others away can really be there. */
  lemma HistoryHiddenIff(msg: string)
    ensures HidesHistory(msg) <==> SelfContained(msg)
  {
    if SelfContained(msg) {
      StaleFieldsHiddenIff(msg);
    } else {
      var h1, h2 := [WitnessMessage(msg, "x")], [WitnessMessage(msg, "y")];
      var faults := (k: nat) => false;
      WitnessIsReachable(msg, "x", faults);
      WitnessIsReachable(msg, "y", faults);
      WitnessesDiffer(msg);
      hide Process;
      hide RunMessages;
      var s, t := RunMessages(h1, EMPTY, faults), RunMessages(h2, EMPTY, faults);
      assert !SameVisibly(Process(msg, s.fields, s.store, false), Process(msg, t.fields, t.store, false));
    }
  }

  /** However the bytes are cut, interrupted receives add nothing and nothing is read once the
      connection has ended. */
  lemma {:induction false} ReceivedChunks(chunks: seq<string>, receives: seq<Receive>, more: seq<Receive>)
    requires forall r :: r in receives ==> r.Data? || r.Interrupted?
    ensures Received(Map((chunk: string) => Data(chunk), chunks)) == Flatten(chunks)
    ensures Received(receives + more) == Received(receives) + Received(more)
    ensures Received([Interrupted] + more) == Received(more)
    ensures Received([Disconnected] + more) == Received([Broken] + more) == []
    decreases |chunks| + |receives|
  {
    assert ([Interrupted] + more)[1..] == more;
    if chunks == [] {
    } else {
      ReceivedChunks(chunks[1..], receives, more);
      var all := Map((chunk: string) => Data(chunk), chunks);
      assert all[1..] == Map((chunk: string) => Data(chunk), chunks[1..]);
    }
    if receives == [] {
      assert receives + more == more;
    } else {
      ReceivedChunks([], receives[1..], more);
      assert (receives + more)[1..] == receives[1..] + more;
    }
  }

  lemma {:induction false} FrameAppend(messages: seq<string>, last: string)
    ensures Frame(messages + [last]) == Frame(messages) + last + "\n"
  {
    if messages == [] {
      assert Frame([last]) == last + "\n" + Frame([]);
    } else {
      assert (messages + [last])[1..] == messages[1..] + [last];
      FrameAppend(messages[1..], last);
    }
  }

  lemma TakeLine(messages: seq<string>, pending: string, pos: nat)
    requires pos < |pending| && pending[pos] == '\n'
    ensures Frame(messages + [pending[..pos]]) + pending[pos + 1..] == Frame(messages) + pending
  {
    FrameAppend(messages, pending[..pos]);
    assert pending == pending[..pos] + "\n" + pending[pos + 1..];
  }

  lemma RunOneMore(messages: seq<string>, msg: string, start: Session, faults: nat -> bool)
    ensures var before := RunMessages(messages, start, faults);
      var effect := Process(msg, before.fields, before.store, faults(|messages|));
      RunMessages(messages + [msg], start, faults)
      == Session(effect.fields, effect.store, before.responses + [Response(effect.status)])
  {
    assert (messages + [msg])[..|messages|] == messages;
  }

  /** What a connection has done when it ends. Framing conserves bytes even when sends fail:
      the processed messages, each with its newline, followed by the pending buffer are
      exactly the bytes received. A complete line is left pending only after a failed send. */
  ghost predicate Handled(receives: seq<Receive>, sendFails: nat -> bool, faults: nat -> bool,
                          before: Store, after: Store, messages: seq<string>, responses: seq<string>, pending: string) {
    && Frame(messages) + pending == Received(receives) && NewlineFree(messages)
    && ('\n' in pending ==> messages != [] && sendFails(|messages| - 1))
    && var session := RunMessages(messages, Session(Fields("", "", ""), before, []), faults);
       after == session.store && responses == session.responses
  }

  // The processed lines, the pending buffer and what is still to arrive are all the bytes.
  ghost predicate Conserved(lines: string, pending: string, receives: seq<Receive>, next: nat) {
    next <= |receives| && lines + pending + Received(receives[next..]) == Received(receives)
  }

  lemma AtFirst(receives: seq<Receive>, start: Session, faults: nat -> bool)
    ensures Conserved(Frame([]), "", receives, 0) && NewlineFree([]) && RunMessages([], start, faults) == start
  {
    assert receives[0..] == receives;
  }

  lemma AtLast(lines: string, rest: string, receives: seq<Receive>)
    requires Conserved(lines, rest, receives, |receives|)
    ensures lines + rest == Received(receives)
  {}

  lemma NextReceive(lines: string, pending: string, receives: seq<Receive>, next: nat)
    requires next < |receives| && Conserved(lines, pending, receives, next)
    ensures match receives[next]
      case Data(bytes) =>
        forall lines', pending' :: lines' + pending' == lines + (pending + bytes) ==> Conserved(lines', pending', receives, next + 1)
      case Interrupted => Conserved(lines, pending, receives, next + 1)
      case Disconnected | Broken => lines + pending == Received(receives)
  {
    assert receives[next..][1..] == receives[next + 1..];
    if receives[next].Data? {
      var bytes, rest := receives[next].bytes, Received(receives[next + 1..]);
      assert lines + pending + (bytes + rest) == lines + (pending + bytes) + rest;
    }
  }

  /** handleClient. The outer loop ends with the connection, or when the signal handler stops
      it, which is the end of the list; sendFails(k) says that sending response k fails. */
  method HandleClient(db: Database, receives: seq<Receive>, sendFails: nat -> bool, faults: nat -> bool)
    returns (messages: seq<string>, responses: seq<string>, pending: string)
    modifies db
    ensures Handled(receives, sendFails, faults, old(db.content), db.content, messages, responses, pending)
  {
    hide RunMessages;
    hide Conserved;
    hide Frame;
    hide Received;
    hide NewlineFree;
    var client := new ClientWorkSpace();
    messages, responses, pending := [], [], "";
    ghost var start := Session(Fields("", "", ""), db.content, []);
    AtFirst(receives, start, faults);
    var next := 0;
    while next < |receives|
      invariant next <= |receives|
      invariant Conserved(Frame(messages), pending, receives, next)
      invariant NewlineFree(messages)
      invariant '\n' in pending ==> messages != [] && sendFails(|messages| - 1)
      invariant RunMessages(messages, start, faults) == Session(client.Now(), db.content, responses)
      invariant fresh(client)
    {
      var received := receives[next];
      NextReceive(Frame(messages), pending, receives, next);
      next := next + 1;
      match received {
        case Data(bytes) =>
          pending := pending + bytes;
          messages, responses, pending := ProcessLines(client, db, messages, responses, pending, start, sendFails, faults);
        case Interrupted =>
        case Disconnected => break;
        case Broken => break;
      }
    }
    forall lines, rest | Conserved(lines, rest, receives, |receives|) ensures lines + rest == Received(receives) {
      AtLast(lines, rest, receives);
    }
  }

  /** The inner loop of handleClient: a failed send leaves the remaining lines pending. */
  method ProcessLines(client: ClientWorkSpace, db: Database, messages0: seq<string>, responses0: seq<string>,
                      pending0: string, ghost start: Session, sendFails: nat -> bool, faults: nat -> bool)
    returns (messages: seq<string>, responses: seq<string>, pending: string)
    requires NewlineFree(messages0)
    requires RunMessages(messages0, start, faults) == Session(client.Now(), db.content, responses0)
    modifies client, db
    ensures Frame(messages) + pending == Frame(messages0) + pending0 && NewlineFree(messages)
    ensures '\n' in pending ==> |messages0| < |messages| && sendFails(|messages| - 1)
    ensures |messages0| <= |messages| && forall k :: |messages0| <= k < |messages| - 1 ==> !sendFails(k)
    ensures RunMessages(messages, start, faults) == Session(client.Now(), db.content, responses)
  {
    hide Process;
    hide RunMessages;
    hide Frame;
    messages, responses, pending := messages0, responses0, pending0;
    var pos := Find(pending, '\n');
    while pos != |pending|
      invariant pos == Find(pending, '\n')
      invariant |messages0| <= |messages| && forall k :: |messages0| <= k < |messages| ==> !sendFails(k)
      invariant Frame(messages) + pending == Frame(messages0) + pending0 && NewlineFree(messages)
      invariant RunMessages(messages, start, faults) == Session(client.Now(), db.content, responses)
      decreases |pending|
    {
      var msg := pending[..pos];
      TakeLine(messages, pending, pos);
      RunOneMore(messages, msg, start, faults);
      pending := pending[pos + 1..];
      var status := client.ProcessMessage(msg, db, faults(|messages|));
      messages := messages + [msg];
      responses := responses + [Response(status)];
      if sendFails(|messages| - 1) {
        break;
      }
      pos := Find(pending, '\n');
    }
  }

  // ---------- End to end ----------

  datatype Command = Get(key: string) | Put(key: string, val: string) | Delete(key: string)

  /** A field that survives the line format: no space and no newline. */
  predicate Clean(field: string) {
    ' ' !in field && '\n' !in field
  }

  predicate CleanCommand(c: Command) {
    Clean(c.key) && (c.Put? ==> Clean(c.val))
  }

  function Tokens(c: Command): seq<string> {
    match c
    case Get(key) => ["get", key]
    case Put(key, val) => ["put", key, val]
    case Delete(key) => ["delete", key]
  }

  function EncodeCommand(c: Command): string {
    Join(Tokens(c), ' ')
  }

  /** A command on a plain map: the new map and the line that answers it. */
  function Answer(c: Command, store: Store): (Store, string) {
    match c
    case Get(key) =>
      if key in store then (store, "Echo: " + ("Get success. <key: " + key + ", val: " + store[key] + ">") + "\n")
      else (store, "Echo: " + ("Fail to execute 'get' op for key " + key) + "\n")
    case Put(key, val) => (store[key := val], "Echo: " + ("Put success. <key: " + key + ", val: " + val + ">") + "\n")
    case Delete(key) => (store - {key}, "Echo: " + ("Delete success. key: " + key) + "\n")
  }

  ghost function Reference(commands: seq<Command>, store: Store): (Store, seq<string>) {
    if commands == [] then (store, []) else
      var n := |commands| - 1;
      var (before, responses) := Reference(commands[..n], store);
      var (after, response) := Answer(commands[n], before);
      (after, responses + [response])
  }

  lemma CommandSplits(c: Command)
    requires CleanCommand(c)
    ensures Split(EncodeCommand(c), ' ') == Tokens(c)
  {
    SplitJoin(Tokens(c), ' ');
  }

  lemma CommandFitsOneLine(c: Command)
    requires CleanCommand(c)
    ensures '\n' !in EncodeCommand(c)
  {
    match c
    case Get(key) => JoinPair("get", key);
    case Put(key, val) =>
      JoinPair(key, val);
      assert ["put", key, val][1..] == [key, val];
    case Delete(key) => JoinPair("delete", key);
  }

  lemma JoinPair(a: string, b: string)
    ensures Join([a, b], ' ') == a + [' '] + b
  {
    assert [a, b][1..] == [b];
  }

  /** A full-arity command has the effect it has on a plain map, whatever the workspace held. */
  lemma CommandIgnoresWorkspace(c: Command, before: Fields, store: Store)
    requires CleanCommand(c)
    ensures var effect := Process(EncodeCommand(c), before, store, false);
      (effect.store, Response(effect.status)) == Answer(c, store)
  {
    CommandSplits(c);
    hide Split;
    hide EncodeCommand;
    var f := Parse(EncodeCommand(c), before);
    match c
    case Get(key) => assert f == Fields("get", key, before.val);
    case Put(key, val) => assert f == Fields("put", key, val);
    case Delete(key) => assert f == Fields("delete", key, before.val);
  }

  lemma {:induction false} RunIsReference(commands: seq<Command>, start: Session, faults: nat -> bool)
    requires forall c :: c in commands ==> CleanCommand(c)
    requires forall k :: !faults(k)
    requires start.responses == []
    ensures var session := RunMessages(Map(EncodeCommand, commands), start, faults);
      (session.store, session.responses) == Reference(commands, start.store)
  {
    if commands == [] {
    } else {
      var n := |commands| - 1;
      RunIsReference(commands[..n], start, faults);
      assert Map(EncodeCommand, commands)[..n] == Map(EncodeCommand, commands[..n]);
      var before := RunMessages(Map(EncodeCommand, commands[..n]), start, faults);
      CommandIgnoresWorkspace(commands[n], before.fields, before.store);
    }
  }

  lemma FrameHasNewline(messages: seq<string>, rest: string)
    requires messages != []
    ensures '\n' in Frame(messages) + rest
  {
    assert (Frame(messages) + rest)[|messages[0]|] == '\n';
  }

  /** A byte stream has one reading as newline-free lines and a newline-free remainder. */
  lemma {:induction false} FramingIsUnique(a: seq<string>, restA: string, b: seq<string>, restB: string)
    requires NewlineFree(a) && NewlineFree(b) && '\n' !in restA && '\n' !in restB
    requires Frame(a) + restA == Frame(b) + restB
    ensures a == b && restA == restB
  {
    if a != [] {
      FrameHasNewline(a, restA);
    } else {
      assert Frame(a) + restA == restA;
    }
    if b != [] {
      FrameHasNewline(b, restB);
    } else {
      assert Frame(b) + restB == restB;
    }
    if a != [] && b != [] {
      assert a[0] in a && b[0] in b;
      var s := Frame(a) + restA;
      assert s == a[0] + ['\n'] + (Frame(a[1..]) + restA);
      assert s == b[0] + ['\n'] + (Frame(b[1..]) + restB);
      FindMark(a[0], '\n', Frame(a[1..]) + restA);
      FindMark(b[0], '\n', Frame(b[1..]) + restB);
      assert a[0] == s[..Find(s, '\n')] == b[0];
      assert s[Find(s, '\n') + 1..] == Frame(a[1..]) + restA;
      assert s[Find(s, '\n') + 1..] == Frame(b[1..]) + restB;
      FramingIsUnique(a[1..], restA, b[1..], restB);
    }
  }

  /** Chunking independence. However the encoded commands are cut into received chunks, a
      session without send failures or storage faults processes exactly the commands, leaves
      nothing pending, and gives the responses and the final store of running the commands
      one by one on a plain map. */
  lemma {:induction false} ChunkingIndependence(commands: seq<Command>, receives: seq<Receive>, sendFails: nat -> bool, faults: nat -> bool,
                             before: Store, after: Store, messages: seq<string>, responses: seq<string>, pending: string)
    requires forall c :: c in commands ==> CleanCommand(c)
    requires Received(receives) == Frame(Map(EncodeCommand, commands))
    requires forall k :: !sendFails(k) && !faults(k)
    requires Handled(receives, sendFails, faults, before, after, messages, responses, pending)
    ensures messages == Map(EncodeCommand, commands) && pending == ""
    ensures (after, responses) == Reference(commands, before)
  {
    var lines := Map(EncodeCommand, commands);
    forall m | m in lines ensures '\n' !in m {
      var i :| 0 <= i < |lines| && lines[i] == m;
      CommandFitsOneLine(commands[i]);
    }
    assert Frame(lines) + "" == Frame(lines);
    FramingIsUnique(messages, pending, lines, "");
    RunIsReference(commands, Session(Fields("", "", ""), before, []), faults);
  }
}
