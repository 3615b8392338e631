/**
 * The engine as mailarchiver runs it: the global catalog, the two counters
 * and the server connection become the state of one object, and each
 * operation changes that state step by step. Every method is proved to end
 * in the state, and with the result, that its specifying function gives for
 * the state it started from: `Move` runs `Imap.MoveChain` with
 * `Imap.RunChain`, `HandleMessage` is `Engine.Handle`, `ProcessMailbox` is
 * `Engine.Process`, `Run` is `Engine.Archive`, `CumulativeName` is
 * `Paths.Cumulative`, and `MoveMessage` and `EnsureAvailable` are the
 * Engine functions of those names. `Contains` has no specifying function:
 * it finds the name exactly when the name is in the catalog.
 */
module Archiving {
  import opened Optional
  import opened Paths
  import opened Dates
  import opened Imap
  import opened Engine

  class Archiver {
    const cfg: Config
    /** Whether the server announced the MOVE capability, asked once at login. */
    const supportMove: bool
    const server: Server

    /** The global `mailboxes`: every folder the run knows of. */
    var catalog: seq<Mailbox>
    /** Every command sent to the server, in order. */
    var trace: seq<Command>
    var cntMbox: nat
    var cntMsg: nat

    function Context(): Env
    {
      Env(cfg, supportMove, server)
    }

    function Current(): State
      reads this
    {
      State(catalog, trace, cntMbox, cntMsg)
    }

    /** A run starts from the folders the server listed, with nothing sent
        and nothing counted. */
    constructor (cfg: Config, supportMove: bool, server: Server, listed: seq<Mailbox>)
      ensures this.cfg == cfg && this.supportMove == supportMove && this.server == server
      ensures Current() == State(listed, [], 0, 0)
    {
      this.cfg := cfg;
      this.supportMove := supportMove;
      this.server := server;
      catalog := listed;
      trace := [];
      cntMbox := 0;
      cntMsg := 0;
    }

    /** Sends one command; the result says whether the server accepted it. */
    method Send(c: Command) returns (ok: bool)
      modifies this
      ensures trace == old(trace) + [c]
      ensures ok == !server.refuses(old(trace), c)
      ensures catalog == old(catalog) && cntMbox == old(cntMbox) && cntMsg == old(cntMsg)
    {
      ok := !server.refuses(trace, c);
      trace := trace + [c];
    }

    /** `(*imapClient).Move`. */
    method Move(uid: Uid, target: string) returns (ok: bool)
      modifies this
      ensures var (sent, done) := RunChain(server.refuses, old(trace), MoveChain(supportMove, uid, target));
        trace == old(trace) + sent && ok == done
      ensures catalog == old(catalog) && cntMbox == old(cntMbox) && cntMsg == old(cntMsg)
    {
      ghost var h := trace;
      ghost var r := server.refuses;
      if supportMove {
        var move := UidMove(uid, target);
        assert RunChain(r, h + [move], []) == ([], true);
        ok := Send(move);
        if !ok { return; }
      } else {
        var copy, store := UidCopy(uid, target), UidStoreDeleted(uid);
        ghost var h1 := h + [copy];
        ghost var h2 := h1 + [store];
        ghost var last := RunChain(r, h2, [Expunge]);
        assert RunChain(r, h2 + [Expunge], []) == ([], true);
        assert last == ([Expunge], !r(h2, Expunge)) by {
          assert [Expunge][1..] == [] && [Expunge] + [] == [Expunge];
          if !r(h2, Expunge) {
            assert last == ([Expunge] + RunChain(r, h2 + [Expunge], []).0, RunChain(r, h2 + [Expunge], []).1);
          }
        }
        ghost var middle := RunChain(r, h1, [store, Expunge]);
        assert [store, Expunge][1..] == [Expunge];
        assert middle == if r(h1, store) then ([store], false) else ([store] + last.0, last.1);
        assert MoveChain(false, uid, target) == [copy, store, Expunge];
        assert [copy, store, Expunge][1..] == [store, Expunge];
        assert RunChain(r, h, [copy, store, Expunge])
            == if r(h, copy) then ([copy], false) else ([copy] + middle.0, middle.1);
        ok := Send(copy);
        if !ok { return; }
        ok := Send(store);
        if !ok { return; }
        ok := Send(Expunge);
        if !ok { return; }
      }
      ok := true;
    }

    /** `moveMessage`: `Move` unless in dry-run; its result is dropped. */
    method MoveMessage(uid: Uid, target: string)
      modifies this
      ensures Current() == Engine.MoveMessage(Context(), old(Current()), uid, target)
    {
      if !cfg.dry {
        var _ := Move(uid, target);
      }
    }

    /** The inner loop of `ensureAvailable` that builds the name of depth
        `pI` from the pieces. */
    static method CumulativeName(parts: seq<string>, d: string, pI: nat) returns (target: string)
      requires pI < |parts|
      ensures target == Cumulative(parts, d, pI)
    {
      target := "";
      var i := 0;
      while i <= pI
        invariant 0 <= i <= pI + 1
        invariant target == if i == 0 then "" else Cumulative(parts, d, i - 1)
      {
        if |target| > 0 {
          target := target + d;
        }
        target := target + parts[i];
        i := i + 1;
      }
    }

    /** The linear scan of the catalog in `ensureAvailable`. */
    method Contains(name: string) returns (found: bool)
      ensures found <==> name in Names(catalog)
    {
      found := false;
      var j := 0;
      while j < |catalog|
        invariant 0 <= j <= |catalog|
        invariant found <==> exists q :: 0 <= q < j && catalog[q].name == name
      {
        if catalog[j].name == name {
          found := true;
          break;
        }
        j := j + 1;
      }
    }

    /** `(*mailbox).ensureAvailable`. */
    method EnsureAvailable(mbox: Mailbox) returns (ok: bool)
      modifies this
      ensures (Current(), ok) == Engine.EnsureAvailable(Context(), old(Current()), mbox)
    {
      var d := mbox.delimiter;
      var parts := Split(mbox.name, d);
      ghost var targets := Targets(parts, d);
      var pI := 0;
      while pI < |parts|
        invariant 0 <= pI <= |parts|
        invariant EnsureSteps(Context(), old(Current()), targets, d)
               == EnsureSteps(Context(), Current(), targets[pI..], d)
      {
        var target := CumulativeName(parts, d, pI);
        var found := Contains(target);

        assert targets[pI..][0] == target && targets[pI..][1..] == targets[pI + 1..];
        if !found {
          if !cfg.dry {
            var created := Send(Create(target));
            if !created {
              ok := false;
              return;
            }
          }
          catalog := catalog + [Mailbox(target, d)];
        }
        pI := pI + 1;
      }
      ok := true;
    }

    /** The body of the message loop of `processMailbox`, for one message. */
    method HandleMessage(mbox: Mailbox, msg: Message, currentDate: YearMonth) returns (ok: bool)
      modifies this
      ensures (Current(), ok) == Handle(Context(), old(Current()), mbox, msg, currentDate)
    {
      var decision := Classify(msg.date, currentDate, cfg.skipCurrent, cfg.archive, mbox.delimiter);
      if decision.Target? && mbox.name != decision.name {
        var available := EnsureAvailable(Mailbox(decision.name, mbox.delimiter));
        if !available {
          return false;
        }
        MoveMessage(msg.uid, decision.name);
        cntMsg := cntMsg + 1;
      }
      ok := true;
    }

    /** `processMailbox`. */
    method ProcessMailbox(mbox: Mailbox) returns (ok: bool)
      modifies this
      ensures (Current(), ok) == Process(Context(), old(Current()), mbox)
    {
      ok := Send(Select(mbox.name));
      if !ok { return; }
      ok := Send(UidFetchAll);
      if !ok { return; }
      var messages := server.fetched(trace);
      var currentDate := server.clock(trace);
      ghost var env := Context();
      ghost var outcome := Pass(env, Current(), mbox, messages, currentDate);
      assert Process(env, old(Current()), mbox)
          == if outcome.1 then (outcome.0.(cntMbox := outcome.0.cntMbox + 1), true) else (outcome.0, false);

      var i := 0;
      while i < |messages|
        invariant 0 <= i <= |messages|
        invariant outcome == Pass(env, Current(), mbox, messages[i..], currentDate)
      {
        assert messages[i..][0] == messages[i] && messages[i..][1..] == messages[i + 1..];
        ok := HandleMessage(mbox, messages[i], currentDate);
        if !ok {
          return;
        }
        i := i + 1;
      }

      assert messages[i..] == [];
      cntMbox := cntMbox + 1;
      ok := true;
    }

    /** The selection loop of `action`, over the catalog as it stands when
        the loop starts. */
    method Run() returns (ok: bool)
      modifies this
      ensures (Current(), ok) == Engine.Archive(Context(), old(Current()))
    {
      var snapshot := catalog;
      var k := 0;
      while k < |snapshot|
        invariant 0 <= k <= |snapshot|
        invariant SelectFrom(Context(), old(Current()), snapshot)
               == SelectFrom(Context(), Current(), snapshot[k..])
      {
        var m := snapshot[k];
        assert snapshot[k..][0] == m && snapshot[k..][1..] == snapshot[k + 1..];

        var ignored := false;
        var j := 0;
        while j < |cfg.ignoreMailboxes|
          invariant 0 <= j <= |cfg.ignoreMailboxes|
          invariant forall q :: 0 <= q < j ==> !(cfg.ignoreMailboxes[q] <= m.name)
          invariant !ignored
        {
          if cfg.ignoreMailboxes[j] <= m.name {
            ignored := true;
            break;
          }
          j := j + 1;
        }
        assert ignored <==> Ignored(cfg.ignoreMailboxes, m.name) by {
          if ignored {
            assert cfg.ignoreMailboxes[j] in cfg.ignoreMailboxes;
          }
        }

        if !ignored {
          ghost var before := Current();
          j := 0;
          while j < |cfg.mailboxes|
            invariant 0 <= j <= |cfg.mailboxes|
            invariant ExactCalls(Context(), before, m, cfg.mailboxes)
                   == ExactCalls(Context(), Current(), m, cfg.mailboxes[j..])
          {
            assert cfg.mailboxes[j..][1..] == cfg.mailboxes[j + 1..];
            if m.name == cfg.mailboxes[j] {
              var _ := ProcessMailbox(m);
            }
            j := j + 1;
          }
          assert cfg.mailboxes[|cfg.mailboxes|..] == [];

          ghost var between := Current();
          j := 0;
          while j < |cfg.recursiveMailboxes|
            invariant 0 <= j <= |cfg.recursiveMailboxes|
            invariant RecursiveCalls(Context(), between, m, cfg.recursiveMailboxes)
                   == RecursiveCalls(Context(), Current(), m, cfg.recursiveMailboxes[j..])
          {
            assert cfg.recursiveMailboxes[j..][1..] == cfg.recursiveMailboxes[j + 1..];
            if cfg.recursiveMailboxes[j] <= m.name {
              var processed := ProcessMailbox(m);
              if !processed {
                ok := false;
                return;
              }
            }
            j := j + 1;
          }
          assert cfg.recursiveMailboxes[|cfg.recursiveMailboxes|..] == [];
        }
        k := k + 1;
      }
      ok := true;
    }
  }
}
