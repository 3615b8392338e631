/**
 * What `processMailbox` promises: which messages it moves and counts, that
 * a mailbox is counted only when its pass finishes, what a dry run sends,
 * and that every call starts with exactly one SELECT of its mailbox.
 */
module ProcessProperties {
  import opened Paths
  import opened Dates
  import opened Imap
  import opened Engine
  import opened EnsureProperties

  /** A message leaves its mailbox: it is not skipped and its target is
      another mailbox. */
  predicate Leaves(env: Env, mbox: Mailbox, msg: Message, now: YearMonth)
  {
    var d := Decide(env, mbox, msg, now);
    d.Target? && d.name != mbox.name
  }

  /** How many of `msgs` leave their mailbox. */
  function Leaving(env: Env, mbox: Mailbox, msgs: seq<Message>, now: YearMonth): nat
    decreases |msgs|
  {
    if msgs == [] then 0
    else (if Leaves(env, mbox, msgs[0], now) then 1 else 0) + Leaving(env, mbox, msgs[1..], now)
  }

  /** Commands that change the server's folders or messages. */
  predicate Writes(c: Command)
  {
    c.Create? || c.UidMove? || c.UidCopy? || c.UidStoreDeleted? || c.Expunge?
  }

  /** `moveMessage` sends only commands that change messages, and none in
      dry-run; the catalog and the counters stay as they are. */
  lemma MoveMessageWrites(env: Env, st: State, uid: Uid, target: string)
    ensures var st1 := MoveMessage(env, st, uid, target);
      && st1.catalog == st.catalog && st1.cntMbox == st.cntMbox && st1.cntMsg == st.cntMsg
      && st.trace <= st1.trace
      && (forall c :: c in st1.trace[|st.trace|..] ==> Writes(c))
      && (env.cfg.dry ==> st1 == st)
  {
    MoveMessageSendsItsChain(env, st, uid, target);
  }

  /** Every command `moveMessage` sends belongs to the move chain of that
      message: never a CREATE, never a SELECT. */
  lemma MoveMessageSendsItsChain(env: Env, st: State, uid: Uid, target: string)
    ensures var st1 := MoveMessage(env, st, uid, target);
      && st.trace <= st1.trace
      && (forall c :: c in st1.trace[|st.trace|..] ==>
            c in MoveChain(env.supportMove, uid, target) && !c.Create? && !c.Select? && Writes(c))
  {
    if !env.cfg.dry {
      var chain := MoveChain(env.supportMove, uid, target);
      RunChainSucceedsIffAllAccepted(env.server.refuses, st.trace, chain);
      var sent := RunChain(env.server.refuses, st.trace, chain).0;
      assert MoveMessage(env, st, uid, target).trace[|st.trace|..] == sent;
      forall c | c in sent ensures c in chain && !c.Create? && !c.Select? && Writes(c) {
        var q :| 0 <= q < |sent| && sent[q] == c;
        assert c == chain[q];
      }
    }
  }

  /** One round counts its message exactly when the message leaves the
      mailbox and the target folder could be ensured; it never touches
      `cntMbox`. A message that stays sends nothing and changes nothing. */
  lemma HandleCounts(env: Env, st: State, mbox: Mailbox, msg: Message, now: YearMonth)
    ensures var (st1, ok) := Handle(env, st, mbox, msg, now);
      && st1.cntMbox == st.cntMbox
      && st1.cntMsg == st.cntMsg + (if ok && Leaves(env, mbox, msg, now) then 1 else 0)
      && (!ok ==> Leaves(env, mbox, msg, now))
    ensures !Leaves(env, mbox, msg, now) ==> Handle(env, st, mbox, msg, now) == (st, true)
  {
    if Leaves(env, mbox, msg, now) {
      var t := Decide(env, mbox, msg, now).name;
      var r := EnsureAvailable(env, st, Mailbox(t, mbox.delimiter));
      EnsureAppendsMissing(env, st, Targets(Split(t, mbox.delimiter), mbox.delimiter), mbox.delimiter);
      if r.1 {
        MoveMessageWrites(env, r.0, msg.uid, t);
      }
    }
  }

  /** One round only appends to the catalog and the trace, sends nothing
      but commands that change folders or messages, and in dry-run sends
      nothing and always succeeds. */
  lemma HandleWrites(env: Env, st: State, mbox: Mailbox, msg: Message, now: YearMonth)
    ensures var (st1, ok) := Handle(env, st, mbox, msg, now);
      && st.catalog <= st1.catalog
      && st.trace <= st1.trace
      && (forall c :: c in st1.trace[|st.trace|..] ==> Writes(c))
      && (env.cfg.dry ==> ok && st1.trace == st.trace)
  {
    if Leaves(env, mbox, msg, now) {
      var t := Decide(env, mbox, msg, now).name;
      var d := mbox.delimiter;
      var targets := Targets(Split(t, d), d);
      var r := EnsureAvailable(env, st, Mailbox(t, d));
      EnsureAppendsMissing(env, st, targets, d);
      EnsureSendsOnlyCreates(env, st, targets, d);
      if env.cfg.dry {
        EnsureDryRun(env, st, targets, d);
      }
      if r.1 {
        var st2 := MoveMessage(env, r.0, msg.uid, t);
        MoveMessageWrites(env, r.0, msg.uid, t);
        assert st2.trace[|st.trace|..] == r.0.trace[|st.trace|..] + st2.trace[|r.0.trace|..];
      }
    }
  }

  /** Counting in the message loop: `cntMbox` is untouched; when the loop
      finishes, `cntMsg` has grown by exactly the number of messages that
      leave the mailbox (whether or not their move commands succeeded);
      when it is cut short, by fewer. */
  lemma {:induction false} PassCounts(env: Env, st: State, mbox: Mailbox, msgs: seq<Message>, now: YearMonth)
    ensures var (st1, ok) := Pass(env, st, mbox, msgs, now);
      && st1.cntMbox == st.cntMbox
      && (ok ==> st1.cntMsg == st.cntMsg + Leaving(env, mbox, msgs, now))
      && (!ok ==> st1.cntMsg < st.cntMsg + Leaving(env, mbox, msgs, now))
    decreases |msgs|
  {
    if msgs != [] {
      var r := Handle(env, st, mbox, msgs[0], now);
      HandleCounts(env, st, mbox, msgs[0], now);
      if r.1 {
        PassCounts(env, r.0, mbox, msgs[1..], now);
      }
    }
  }

  /** The message loop only appends to the catalog and the trace, and what
      it sends all changes folders or messages; in dry-run it sends
      nothing and always finishes. */
  lemma {:induction false} PassWrites(env: Env, st: State, mbox: Mailbox, msgs: seq<Message>, now: YearMonth)
    ensures var (st1, ok) := Pass(env, st, mbox, msgs, now);
      && st.catalog <= st1.catalog
      && st.trace <= st1.trace
      && (forall c :: c in st1.trace[|st.trace|..] ==> Writes(c))
      && (env.cfg.dry ==> ok && st1.trace == st.trace)
    decreases |msgs|
  {
    if msgs != [] {
      var r := Handle(env, st, mbox, msgs[0], now);
      HandleWrites(env, st, mbox, msgs[0], now);
      if r.1 {
        PassWrites(env, r.0, mbox, msgs[1..], now);
        var st2 := Pass(env, r.0, mbox, msgs[1..], now).0;
        assert st2.trace[|st.trace|..] == r.0.trace[|st.trace|..] + st2.trace[|r.0.trace|..];
      }
    }
  }

  /** Counting in `processMailbox`: the mailbox is counted exactly when the
      pass finishes, and then `cntMsg` has grown by the number of fetched
      messages that leave it, judged against the month read once after the
      fetch. */
  lemma ProcessCounts(env: Env, st: State, mbox: Mailbox)
    ensures var (st1, ok) := Process(env, st, mbox);
      var h := st.trace + [Select(mbox.name), UidFetchAll];
      && (ok ==> st1.cntMbox == st.cntMbox + 1
                 && st1.cntMsg == st.cntMsg + Leaving(env, mbox, env.server.fetched(h), env.server.clock(h)))
      && (!ok ==> st1.cntMbox == st.cntMbox)
  {
    var h := st.trace + [Select(mbox.name), UidFetchAll];
    assert st.trace + [Select(mbox.name)] + [UidFetchAll] == h;
    PassCounts(env, st.(trace := h), mbox, env.server.fetched(h), env.server.clock(h));
  }

  /** Every call of `processMailbox` sends SELECT for its mailbox first and
      no other SELECT; the rest of what it sends is the UID FETCH and
      commands that change folders or messages. */
  lemma ProcessSelectsOnce(env: Env, st: State, mbox: Mailbox)
    ensures var st1 := Process(env, st, mbox).0;
      && st.trace + [Select(mbox.name)] <= st1.trace
      && (forall c :: c in st1.trace[|st.trace| + 1..] ==> c == UidFetchAll || Writes(c))
      && st.catalog <= st1.catalog
  {
    var h1 := st.trace + [Select(mbox.name)];
    var h := h1 + [UidFetchAll];
    if !env.server.refuses(st.trace, Select(mbox.name)) && !env.server.refuses(h1, UidFetchAll) {
      var msgs, now := env.server.fetched(h), env.server.clock(h);
      PassWrites(env, st.(trace := h), mbox, msgs, now);
      var st1 := Pass(env, st.(trace := h), mbox, msgs, now).0;
      assert st1.trace[|st.trace| + 1..] == [UidFetchAll] + st1.trace[|h|..];
    }
  }

  /** A dry run of `processMailbox` whose SELECT and UID FETCH succeed
      finishes, sends nothing else, counts the mailbox, and counts every
      message that would leave it. */
  lemma DryProcess(env: Env, st: State, mbox: Mailbox)
    requires env.cfg.dry
    requires !env.server.refuses(st.trace, Select(mbox.name))
    requires !env.server.refuses(st.trace + [Select(mbox.name)], UidFetchAll)
    ensures var (st1, ok) := Process(env, st, mbox);
      var h := st.trace + [Select(mbox.name), UidFetchAll];
      && ok
      && st1.trace == h
      && st1.cntMbox == st.cntMbox + 1
      && st1.cntMsg == st.cntMsg + Leaving(env, mbox, env.server.fetched(h), env.server.clock(h))
  {
    var h := st.trace + [Select(mbox.name), UidFetchAll];
    assert st.trace + [Select(mbox.name)] + [UidFetchAll] == h;
    PassWrites(env, st.(trace := h), mbox, env.server.fetched(h), env.server.clock(h));
    PassCounts(env, st.(trace := h), mbox, env.server.fetched(h), env.server.clock(h));
  }

  /** With an empty archive root, a dated message that leaves its mailbox
      is sent to a name starting with the delimiter. That folder is never
      created, yet when the prefixes could be ensured the message is still
      counted as moved. */
  lemma EmptyRootStrandsMessage(env: Env, st: State, mbox: Mailbox, msg: Message, now: YearMonth)
    requires env.cfg.archive == [] && mbox.delimiter != [] && msg.date.Some?
    requires Leaves(env, mbox, msg, now)
    requires Decide(env, mbox, msg, now).name !in Names(st.catalog)
    ensures var t := Decide(env, mbox, msg, now).name;
      var (st1, ok) := Handle(env, st, mbox, msg, now);
      && mbox.delimiter <= t
      && t !in Names(st1.catalog)
      && (ok ==> st1.cntMsg == st.cntMsg + 1)
  {
    var t := Decide(env, mbox, msg, now).name;
    var d := mbox.delimiter;
    assert t == [] + d + Year4(msg.date.value.year) + d + Month2(msg.date.value.month);
    LeadingDelimiterNeverCreated(env, st, Mailbox(t, d));
    HandleCounts(env, st, mbox, msg, now);
  }
}
