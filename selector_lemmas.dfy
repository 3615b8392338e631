/**
 * What the selection loop of `action` promises: which folders of the
 * catalog are processed and how many times, read off the SELECT commands
 * that every `processMailbox` call sends first.
 */
module SelectorProperties {
  import opened Imap
  import opened Engine
  import opened ProcessProperties

  /** The mailboxes selected by a trace, in order. */
  function Selects(trace: seq<Command>): seq<string>
    decreases |trace|
  {
    if trace == [] then []
    else (if trace[0].Select? then [trace[0].mailbox] else []) + Selects(trace[1..])
  }

  lemma {:induction false} SelectsAppend(a: seq<Command>, b: seq<Command>)
    ensures Selects(a + b) == Selects(a) + Selects(b)
    decreases |a|
  {
    if a == [] {
      assert a + b == b;
    } else {
      assert (a + b)[0] == a[0] && (a + b)[1..] == a[1..] + b;
      SelectsAppend(a[1..], b);
    }
  }

  lemma {:induction false} SelectsNone(a: seq<Command>)
    requires forall c :: c in a ==> !c.Select?
    ensures Selects(a) == []
    decreases |a|
  {
    if a != [] {
      assert a[0] in a;
      SelectsNone(a[1..]);
    }
  }

  /** `n` copies of `name`. */
  function Repeat(name: string, n: nat): (r: seq<string>)
    ensures |r| == n && forall i :: 0 <= i < n ==> r[i] == name
  {
    if n == 0 then [] else [name] + Repeat(name, n - 1)
  }

  /** How many entries equal `name`. */
  function CountEq(entries: seq<string>, name: string): nat
    decreases |entries|
  {
    if entries == [] then 0
    else (if entries[0] == name then 1 else 0) + CountEq(entries[1..], name)
  }

  /** How many entries are prefixes of `name`. */
  function CountPrefix(entries: seq<string>, name: string): nat
    decreases |entries|
  {
    if entries == [] then 0
    else (if entries[0] <= name then 1 else 0) + CountPrefix(entries[1..], name)
  }

  /** How often the selection loop calls `processMailbox` for a folder it
      does not ignore: once per equal entry of `mailboxes` and once more per
      entry of `recursiveMailboxes` that is a prefix of its name. */
  function Calls(cfg: Config, name: string): nat
  {
    CountEq(cfg.mailboxes, name) + CountPrefix(cfg.recursiveMailboxes, name)
  }

  /** The mailboxes the selection loop processes, in order, when nothing
      stops it. */
  function Schedule(cfg: Config, snapshot: seq<Mailbox>): seq<string>
    decreases |snapshot|
  {
    if snapshot == [] then []
    else
      Chunk(cfg, snapshot[0]) + Schedule(cfg, snapshot[1..])
  }

  /** Each `processMailbox` call selects its mailbox exactly once. */
  lemma ProcessSelects(env: Env, st: State, m: Mailbox)
    ensures Selects(Process(env, st, m).0.trace) == Selects(st.trace) + [m.name]
  {
    var st1 := Process(env, st, m).0;
    ProcessSelectsOnce(env, st, m);
    var tail := st1.trace[|st.trace| + 1..];
    assert st1.trace == st.trace + [Select(m.name)] + tail;
    forall c | c in tail ensures !c.Select? {
      assert c == UidFetchAll || Writes(c);
    }
    SelectsNone(tail);
    SelectsAppend(st.trace + [Select(m.name)], tail);
    SelectsAppend(st.trace, [Select(m.name)]);
    assert Selects([Select(m.name)]) == [m.name] by {
      assert [Select(m.name)][1..] == [];
    }
  }

  lemma {:induction false} ExactCallsSelects(env: Env, st: State, m: Mailbox, entries: seq<string>)
    ensures Selects(ExactCalls(env, st, m, entries).trace)
         == Selects(st.trace) + Repeat(m.name, CountEq(entries, m.name))
    decreases |entries|
  {
    if entries != [] {
      if m.name == entries[0] {
        var st1 := Process(env, st, m).0;
        ProcessSelects(env, st, m);
        ExactCallsSelects(env, st1, m, entries[1..]);
        assert Repeat(m.name, CountEq(entries, m.name))
            == [m.name] + Repeat(m.name, CountEq(entries[1..], m.name));
      } else {
        ExactCallsSelects(env, st, m, entries[1..]);
      }
    }
  }

  /** `after` is what `before` became by following `plan`: all of it when
      `ok`, a leading part of it otherwise. */
  predicate Follows(before: seq<string>, after: seq<string>, plan: seq<string>, ok: bool)
  {
    && before <= after <= before + plan
    && (ok ==> after == before + plan)
  }

  lemma FollowsThen(s0: seq<string>, s1: seq<string>, s2: seq<string>, p1: seq<string>, p2: seq<string>, ok: bool)
    requires Follows(s0, s1, p1, true) && Follows(s1, s2, p2, ok)
    ensures Follows(s0, s2, p1 + p2, ok)
  {
    assert s0 + (p1 + p2) == s1 + p2;
    assert s2[..|s1|][..|s0|] == s2[..|s0|];
  }

  lemma FollowsStop(s0: seq<string>, s1: seq<string>, p1: seq<string>, p2: seq<string>)
    requires Follows(s0, s1, p1, false)
    ensures Follows(s0, s1, p1 + p2, false)
  {
    assert (s0 + (p1 + p2))[..|s0 + p1|] == s0 + p1;
  }

  lemma {:induction false} RecursiveCallsSelects(env: Env, st: State, m: Mailbox, entries: seq<string>)
    ensures var r := RecursiveCalls(env, st, m, entries);
      Follows(Selects(st.trace), Selects(r.0.trace), Repeat(m.name, CountPrefix(entries, m.name)), r.1)
    decreases |entries|
  {
    var s0 := Selects(st.trace);
    if entries == [] {
      assert s0 + [] == s0;
    } else {
      var rest := entries[1..];
      if entries[0] <= m.name {
        var r1 := Process(env, st, m);
        ProcessSelects(env, st, m);
        assert Repeat(m.name, CountPrefix(entries, m.name))
            == [m.name] + Repeat(m.name, CountPrefix(rest, m.name));
        assert Follows(s0, Selects(r1.0.trace), [m.name], true);
        if r1.1 {
          RecursiveCallsSelects(env, r1.0, m, rest);
          var r2 := RecursiveCalls(env, r1.0, m, rest);
          FollowsThen(s0, Selects(r1.0.trace), Selects(r2.0.trace), [m.name], Repeat(m.name, CountPrefix(rest, m.name)), r2.1);
        } else {
          assert Follows(s0, Selects(r1.0.trace), [m.name], false);
          FollowsStop(s0, Selects(r1.0.trace), [m.name], Repeat(m.name, CountPrefix(rest, m.name)));
        }
      } else {
        RecursiveCallsSelects(env, st, m, rest);
      }
    }
  }

  /** The folders one catalog entry asks for, when it is not ignored. */
  function Chunk(cfg: Config, m: Mailbox): seq<string>
  {
    if Ignored(cfg.ignoreMailboxes, m.name) then [] else Repeat(m.name, Calls(cfg, m.name))
  }

  /** What the selection loop selects for one catalog entry it does not
      ignore. */
  lemma EntrySelects(env: Env, st: State, m: Mailbox)
    requires !Ignored(env.cfg.ignoreMailboxes, m.name)
    ensures var r := RecursiveCalls(env, ExactCalls(env, st, m, env.cfg.mailboxes), m, env.cfg.recursiveMailboxes);
      Follows(Selects(st.trace), Selects(r.0.trace), Chunk(env.cfg, m), r.1)
  {
    var cfg := env.cfg;
    var st0 := ExactCalls(env, st, m, cfg.mailboxes);
    ExactCallsSelects(env, st, m, cfg.mailboxes);
    RecursiveCallsSelects(env, st0, m, cfg.recursiveMailboxes);
    var r := RecursiveCalls(env, st0, m, cfg.recursiveMailboxes);
    var e := Repeat(m.name, CountEq(cfg.mailboxes, m.name));
    var q := Repeat(m.name, CountPrefix(cfg.recursiveMailboxes, m.name));
    assert Chunk(cfg, m) == e + q;
    assert Follows(Selects(st.trace), Selects(st0.trace), e, true);
    FollowsThen(Selects(st.trace), Selects(st0.trace), Selects(r.0.trace), e, q, r.1);
  }

  /** The selection loop processes exactly the folders of its schedule when
      it finishes, and a leading part of the schedule when a recursive match
      fails. */
  lemma {:induction false} SelectFromSchedule(env: Env, st: State, snapshot: seq<Mailbox>)
    ensures var r := SelectFrom(env, st, snapshot);
      Follows(Selects(st.trace), Selects(r.0.trace), Schedule(env.cfg, snapshot), r.1)
    decreases |snapshot|
  {
    var s0 := Selects(st.trace);
    if snapshot == [] {
      assert s0 + [] == s0;
    } else {
      var m := snapshot[0];
      var rest := snapshot[1..];
      var cfg := env.cfg;
      var r1 := RecursiveCalls(env, ExactCalls(env, st, m, cfg.mailboxes), m, cfg.recursiveMailboxes);
      SelectFromStep(env, st, snapshot);
      if Ignored(cfg.ignoreMailboxes, m.name) {
        SelectFromSchedule(env, st, rest);
      } else {
        EntrySelects(env, st, m);
        if r1.1 {
          SelectFromSchedule(env, r1.0, rest);
          var r2 := SelectFrom(env, r1.0, rest);
          FollowsThen(s0, Selects(r1.0.trace), Selects(r2.0.trace), Chunk(cfg, m), Schedule(cfg, rest), r2.1);
        } else {
          FollowsStop(s0, Selects(r1.0.trace), Chunk(cfg, m), Schedule(cfg, rest));
        }
      }
    }
  }

  /** One catalog entry of the selection loop, and its share of the schedule. */
  lemma SelectFromStep(env: Env, st: State, snapshot: seq<Mailbox>)
    requires snapshot != []
    ensures var m := snapshot[0];
      var r1 := RecursiveCalls(env, ExactCalls(env, st, m, env.cfg.mailboxes), m, env.cfg.recursiveMailboxes);
      && Schedule(env.cfg, snapshot) == Chunk(env.cfg, m) + Schedule(env.cfg, snapshot[1..])
      && SelectFrom(env, st, snapshot)
         == if Ignored(env.cfg.ignoreMailboxes, m.name) then SelectFrom(env, st, snapshot[1..])
            else if !r1.1 then r1
            else SelectFrom(env, r1.0, snapshot[1..])
  {
  }

  /** The whole run, over the catalog as the loop found it. */
  lemma ArchiveSchedule(env: Env, st: State)
    ensures var r := Archive(env, st);
      Follows(Selects(st.trace), Selects(r.0.trace), Schedule(env.cfg, st.catalog), r.1)
  {
    SelectFromSchedule(env, st, st.catalog);
  }

  lemma {:induction false} RepeatCount(name: string, n: nat, x: string)
    ensures CountEq(Repeat(name, n), x) == if name == x then n else 0
  {
    if n > 0 {
      assert Repeat(name, n)[1..] == Repeat(name, n - 1);
      RepeatCount(name, n - 1, x);
    }
  }

  lemma {:induction false} CountEqAppend(a: seq<string>, b: seq<string>, x: string)
    ensures CountEq(a + b, x) == CountEq(a, x) + CountEq(b, x)
    decreases |a|
  {
    if a == [] {
      assert a + b == b;
    } else {
      assert (a + b)[0] == a[0] && (a + b)[1..] == a[1..] + b;
      CountEqAppend(a[1..], b, x);
    }
  }

  /** How many folders of the catalog are called `name`. */
  function Folders(snapshot: seq<Mailbox>, name: string): nat
    decreases |snapshot|
  {
    if snapshot == [] then 0
    else (if snapshot[0].name == name then 1 else 0) + Folders(snapshot[1..], name)
  }

  /** A folder is processed once per matching configuration entry, for every
      catalog entry of that name, and never when an ignore entry is a prefix
      of its name; a folder matched by both lists is processed twice. */
  lemma {:induction false} ScheduleCount(cfg: Config, snapshot: seq<Mailbox>, name: string)
    ensures CountEq(Schedule(cfg, snapshot), name)
         == if Ignored(cfg.ignoreMailboxes, name) then 0 else Folders(snapshot, name) * Calls(cfg, name)
    decreases |snapshot|
  {
    if snapshot != [] {
      var m := snapshot[0];
      var rest := snapshot[1..];
      assert Schedule(cfg, snapshot) == Chunk(cfg, m) + Schedule(cfg, rest);
      CountEqAppend(Chunk(cfg, m), Schedule(cfg, rest), name);
      ScheduleCount(cfg, rest, name);
      ChunkCount(cfg, m, name);
      var f := Folders(rest, name);
      assert Folders(snapshot, name) == f + (if m.name == name then 1 else 0);
      MulStep(f, Calls(cfg, name));
    }
  }

  lemma MulStep(f: nat, c: nat)
    ensures (f + 1) * c == f * c + c
  {
  }

  lemma ChunkCount(cfg: Config, m: Mailbox, name: string)
    ensures CountEq(Chunk(cfg, m), name)
         == if m.name == name && !Ignored(cfg.ignoreMailboxes, name) then Calls(cfg, name) else 0
  {
    if !Ignored(cfg.ignoreMailboxes, m.name) {
      RepeatCount(m.name, Calls(cfg, m.name), name);
    }
  }

  /** Only a recursive match can end the run early: with no
      `recursiveMailboxes`, the selection loop always finishes. */
  lemma {:induction false} ExactOnlyAlwaysFinishes(env: Env, st: State, snapshot: seq<Mailbox>)
    requires env.cfg.recursiveMailboxes == []
    ensures SelectFrom(env, st, snapshot).1
    decreases |snapshot|
  {
    if snapshot != [] {
      var m := snapshot[0];
      if !Ignored(env.cfg.ignoreMailboxes, m.name) {
        ExactOnlyAlwaysFinishes(env, ExactCalls(env, st, m, env.cfg.mailboxes), snapshot[1..]);
      } else {
        ExactOnlyAlwaysFinishes(env, st, snapshot[1..]);
      }
    }
  }

  /** "INBOX" listed both in `mailboxes` and in `recursiveMailboxes` is
      processed twice. */
  lemma ExampleDoubleProcessing(cfg: Config)
    requires cfg.mailboxes == ["INBOX"] && cfg.recursiveMailboxes == ["INBOX"] && cfg.ignoreMailboxes == []
    ensures Schedule(cfg, [Mailbox("INBOX", "/")]) == ["INBOX", "INBOX"]
  {
    assert CountEq(cfg.mailboxes, "INBOX") == 1;
    assert CountPrefix(cfg.recursiveMailboxes, "INBOX") == 1;
    assert !Ignored(cfg.ignoreMailboxes, "INBOX");
    assert Repeat("INBOX", 2) == ["INBOX", "INBOX"];
  }
}
