/**
 * The archiving engine of mailarchiver as functions on values: the run
 * state (folder catalog, commands sent to the server, the two counters),
 * the server as an oracle, and one function per operation of the engine.
 * The class in archiver.dfy performs the same operations step by step and
 * is proved to end in exactly the state these functions describe; the
 * lemma files prove what the operations promise.
 */
module Engine {
  import opened Optional
  import opened Paths
  import opened Dates
  import opened Imap

  /** A folder as the server lists it: its full name and its hierarchy delimiter. */
  datatype Mailbox = Mailbox(name: string, delimiter: string)

  /** A fetched message: its UID and its envelope date reduced to a local
      month (`None` for the zero time). */
  datatype Message = Message(uid: Uid, date: Option<YearMonth>)

  datatype Config = Config(
    host: string, port: int, user: string, pass: string,
    dry: bool, skipCurrent: bool, archive: string,
    mailboxes: seq<string>, recursiveMailboxes: seq<string>, ignoreMailboxes: seq<string>)

  datatype ConfigError = MissingConnection | NoMailboxes

  /** The two start-up checks, in their order: host, port and user must be
      given, and at least one mailbox to process, exact or recursive. */
  function CheckConfig(cfg: Config): (r: Option<ConfigError>)
    ensures r == None <==>
      |cfg.host| > 0 && cfg.port >= 1 && |cfg.user| > 0
      && (|cfg.mailboxes| > 0 || |cfg.recursiveMailboxes| > 0)
    ensures r == Some(MissingConnection) <==> |cfg.host| == 0 || cfg.port < 1 || |cfg.user| == 0
    ensures r == Some(NoMailboxes) <==>
      |cfg.host| > 0 && cfg.port >= 1 && |cfg.user| > 0
      && cfg.mailboxes == [] && cfg.recursiveMailboxes == []
  {
    if |cfg.host| == 0 || cfg.port < 1 || |cfg.user| == 0 then Some(MissingConnection)
    else if |cfg.mailboxes| == 0 && |cfg.recursiveMailboxes| == 0 then Some(NoMailboxes)
    else None
  }

  /** Everything the engine learns from the outside, each answer a function
      of the commands sent so far: whether the server refuses a command,
      the messages UID FETCH returns, and the local month the clock shows. */
  datatype Server = Server(
    refuses: Verdict,
    fetched: seq<Command> -> seq<Message>,
    clock: seq<Command> -> YearMonth)

  /** What stays fixed during a run. */
  datatype Env = Env(cfg: Config, supportMove: bool, server: Server)

  /** What a run changes: the catalog `mailboxes`, the commands sent, and
      the counters `cntMbox` and `cntMsg`. */
  datatype State = State(catalog: seq<Mailbox>, trace: seq<Command>, cntMbox: nat, cntMsg: nat)

  function Names(catalog: seq<Mailbox>): (names: seq<string>)
    ensures |names| == |catalog|
    ensures forall i :: 0 <= i < |catalog| ==> names[i] == catalog[i].name
  {
    seq(|catalog|, i requires 0 <= i < |catalog| => catalog[i].name)
  }

  /** `ensureAvailable` from the depth whose name is `targets[0]` on: a
      name already in the catalog is passed over; a missing one is created
      (unless in dry-run) and appended; a refused CREATE ends it. */
  function EnsureSteps(env: Env, st: State, targets: seq<string>, delim: string): (State, bool)
    decreases |targets|
  {
    if targets == [] then (st, true)
    else
      var t := targets[0];
      if t in Names(st.catalog) then EnsureSteps(env, st, targets[1..], delim)
      else if env.cfg.dry then
        EnsureSteps(env, st.(catalog := st.catalog + [Mailbox(t, delim)]), targets[1..], delim)
      else if env.server.refuses(st.trace, Create(t)) then
        (st.(trace := st.trace + [Create(t)]), false)
      else
        EnsureSteps(env, st.(catalog := st.catalog + [Mailbox(t, delim)], trace := st.trace + [Create(t)]),
                    targets[1..], delim)
  }

  /** `(*mailbox).ensureAvailable`: every depth of the name, shallowest first. */
  function EnsureAvailable(env: Env, st: State, mbox: Mailbox): (State, bool)
  {
    EnsureSteps(env, st, Targets(Split(mbox.name, mbox.delimiter), mbox.delimiter), mbox.delimiter)
  }

  /** `moveMessage`: nothing in dry-run, otherwise the commands of `Move`;
      whether they succeeded is not looked at. */
  function MoveMessage(env: Env, st: State, uid: Uid, target: string): State
  {
    if env.cfg.dry then st
    else st.(trace := st.trace + RunChain(env.server.refuses, st.trace, MoveChain(env.supportMove, uid, target)).0)
  }

  /** Where `processMailbox` sends a message of `mbox`, seen from `now`. */
  function Decide(env: Env, mbox: Mailbox, msg: Message, now: YearMonth): Decision
  {
    Classify(msg.date, now, env.cfg.skipCurrent, env.cfg.archive, mbox.delimiter)
  }

  /** One round of the message loop: a skipped message, or one whose
      target is the mailbox it is in, is left alone; otherwise the target
      is ensured (a failure ends the loop), the message is moved and
      counted. */
  function Handle(env: Env, st: State, mbox: Mailbox, msg: Message, now: YearMonth): (State, bool)
  {
    match Decide(env, mbox, msg, now)
    case Skip => (st, true)
    case Target(t) =>
      if t == mbox.name then (st, true)
      else
        var (st1, ok) := EnsureAvailable(env, st, Mailbox(t, mbox.delimiter));
        if !ok then (st1, false)
        else
          var st2 := MoveMessage(env, st1, msg.uid, t);
          (st2.(cntMsg := st2.cntMsg + 1), true)
  }

  /** The message loop of `processMailbox`, over the fetched messages. */
  function Pass(env: Env, st: State, mbox: Mailbox, msgs: seq<Message>, now: YearMonth): (State, bool)
    decreases |msgs|
  {
    if msgs == [] then (st, true)
    else
      var (st1, ok) := Handle(env, st, mbox, msgs[0], now);
      if !ok then (st1, false) else Pass(env, st1, mbox, msgs[1..], now)
  }

  /** `processMailbox`: SELECT the mailbox, UID FETCH its messages, read the
      clock once, run the message loop, and count the mailbox when the loop
      finished. */
  function Process(env: Env, st: State, mbox: Mailbox): (State, bool)
  {
    var h1 := st.trace + [Select(mbox.name)];
    if env.server.refuses(st.trace, Select(mbox.name)) then (st.(trace := h1), false)
    else
      var h2 := h1 + [UidFetchAll];
      if env.server.refuses(h1, UidFetchAll) then (st.(trace := h2), false)
      else
        var (st1, ok) := Pass(env, st.(trace := h2), mbox, env.server.fetched(h2), env.server.clock(h2));
        if ok then (st1.(cntMbox := st1.cntMbox + 1), true) else (st1, false)
  }

  /** Some ignore entry is a prefix of the name. */
  predicate Ignored(ignore: seq<string>, name: string)
  {
    exists p :: p in ignore && p <= name
  }

  /** The exact-match loop for one mailbox: one `processMailbox` per entry
      equal to its name, each one's error dropped. */
  function ExactCalls(env: Env, st: State, m: Mailbox, entries: seq<string>): State
    decreases |entries|
  {
    if entries == [] then st
    else
      var st1 := if m.name == entries[0] then Process(env, st, m).0 else st;
      ExactCalls(env, st1, m, entries[1..])
  }

  /** The recursive-match loop for one mailbox: one `processMailbox` per
      entry that is a prefix of its name; the first error ends the run. */
  function RecursiveCalls(env: Env, st: State, m: Mailbox, entries: seq<string>): (State, bool)
    decreases |entries|
  {
    if entries == [] then (st, true)
    else if entries[0] <= m.name then
      var (st1, ok) := Process(env, st, m);
      if !ok then (st1, false) else RecursiveCalls(env, st1, m, entries[1..])
    else RecursiveCalls(env, st, m, entries[1..])
  }

  /** The selection loop of `action` over a fixed list of mailboxes. */
  function SelectFrom(env: Env, st: State, snapshot: seq<Mailbox>): (State, bool)
    decreases |snapshot|
  {
    if snapshot == [] then (st, true)
    else
      var m := snapshot[0];
      if Ignored(env.cfg.ignoreMailboxes, m.name) then SelectFrom(env, st, snapshot[1..])
      else
        var (st1, ok) := RecursiveCalls(env, ExactCalls(env, st, m, env.cfg.mailboxes), m, env.cfg.recursiveMailboxes);
        if !ok then (st1, false) else SelectFrom(env, st1, snapshot[1..])
  }

  /** A run of the selection loop: over the catalog as it was when the loop
      began; folders created during the run are not visited. */
  function Archive(env: Env, st: State): (State, bool)
  {
    SelectFrom(env, st, st.catalog)
  }
}
