/**
 * What `ensureAvailable` promises: it sends one CREATE per missing prefix,
 * shallowest first, stops at the first refused one, appends exactly the
 * prefixes it created (or, in dry-run, all missing ones), never appends a
 * name twice, and a second call with the same name changes nothing.
 */
module EnsureProperties {
  import opened Paths
  import opened Imap
  import opened Engine

  /** The names of `targets` that are neither in `known` nor earlier in
      `targets`, in order: the prefixes `ensureAvailable` finds missing. */
  function Missing(targets: seq<string>, known: seq<string>): seq<string>
    decreases |targets|
  {
    if targets == [] then []
    else if targets[0] in known then Missing(targets[1..], known)
    else [targets[0]] + Missing(targets[1..], known + [targets[0]])
  }

  function Creates(names: seq<string>): (cmds: seq<Command>)
    ensures |cmds| == |names|
    ensures forall i :: 0 <= i < |names| ==> cmds[i] == Create(names[i])
  {
    seq(|names|, i requires 0 <= i < |names| => Create(names[i]))
  }

  function Entries(names: seq<string>, delim: string): (entries: seq<Mailbox>)
    ensures |entries| == |names|
    ensures forall i :: 0 <= i < |names| ==> entries[i] == Mailbox(names[i], delim)
  {
    seq(|names|, i requires 0 <= i < |names| => Mailbox(names[i], delim))
  }

  predicate NoDuplicates(names: seq<string>)
  {
    forall i, j :: 0 <= i < j < |names| ==> names[i] != names[j]
  }

  /** How many of the CREATEs sent were accepted: all of them on success,
      all but the last on failure. */
  function AcceptedCount(sent: seq<Command>, done: bool): int
  {
    if done then |sent| else |sent| - 1
  }

  lemma NamesAppend(catalog: seq<Mailbox>, extra: seq<Mailbox>)
    ensures Names(catalog + extra) == Names(catalog) + Names(extra)
  {
  }

  /** In dry-run `ensureAvailable` sends nothing, always succeeds and
      appends every missing prefix, shallowest first. */
  lemma {:induction false} EnsureDryRun(env: Env, st: State, targets: seq<string>, delim: string)
    requires env.cfg.dry
    ensures EnsureSteps(env, st, targets, delim)
         == (st.(catalog := st.catalog + Entries(Missing(targets, Names(st.catalog)), delim)), true)
    decreases |targets|
  {
    var known := Names(st.catalog);
    if targets == [] {
      assert st.catalog + Entries([], delim) == st.catalog;
    } else {
      var t := targets[0];
      var rest := targets[1..];
      if t in known {
        EnsureDryRun(env, st, rest, delim);
      } else {
        var grown := st.catalog + [Mailbox(t, delim)];
        NamesAppend(st.catalog, [Mailbox(t, delim)]);
        assert Names(grown) == known + [t];
        var m' := Missing(rest, known + [t]);
        assert Missing(targets, known) == [t] + m';
        EnsureDryRun(env, st.(catalog := grown), rest, delim);
        assert grown + Entries(m', delim) == st.catalog + Entries([t] + m', delim);
      }
    }
  }

  /** CREATE each name of `names` in turn, appending it to the catalog once
      the server accepts it; the first refusal ends it. */
  function CreateAll(refuses: Verdict, st: State, names: seq<string>, delim: string): (State, bool)
    decreases |names|
  {
    if names == [] then (st, true)
    else if refuses(st.trace, Create(names[0])) then (st.(trace := st.trace + [Create(names[0])]), false)
    else CreateAll(refuses, st.(catalog := st.catalog + [Mailbox(names[0], delim)],
                                trace := st.trace + [Create(names[0])]), names[1..], delim)
  }

  /** Outside dry-run, `ensureAvailable` creates exactly the missing
      prefixes, shallowest first. */
  lemma {:induction false} EnsureCreatesMissing(env: Env, st: State, targets: seq<string>, delim: string)
    requires !env.cfg.dry
    ensures EnsureSteps(env, st, targets, delim)
         == CreateAll(env.server.refuses, st, Missing(targets, Names(st.catalog)), delim)
    decreases |targets|
  {
    var known := Names(st.catalog);
    if targets != [] {
      var t := targets[0];
      var rest := targets[1..];
      if t in known {
        EnsureCreatesMissing(env, st, rest, delim);
      } else {
        var grown := st.catalog + [Mailbox(t, delim)];
        NamesAppend(st.catalog, [Mailbox(t, delim)]);
        assert Names(grown) == known + [t];
        var m := Missing(targets, known);
        assert m == [t] + Missing(rest, known + [t]);
        assert m[1..] == Missing(rest, known + [t]);
        if !env.server.refuses(st.trace, Create(t)) {
          EnsureCreatesMissing(env, st.(catalog := grown, trace := st.trace + [Create(t)]), rest, delim);
        }
      }
    }
  }

  /** Creating a list of names is a chain of CREATEs that stops at the
      first refusal, and the catalog gains exactly the names whose CREATE
      was accepted; the counters are untouched. */
  lemma {:induction false} CreateAllIsChain(refuses: Verdict, st: State, names: seq<string>, delim: string)
    ensures ChainAgrees(refuses, st, names, delim)
    decreases |names|
  {
    if names == [] {
      assert st.catalog + Entries([], delim) == st.catalog;
      assert st.trace + [] == st.trace;
    } else {
      var t := names[0];
      assert Creates(names)[0] == Create(t);
      assert Creates(names)[1..] == Creates(names[1..]);
      if refuses(st.trace, Create(t)) {
        assert names[..0] == [];
        assert st.catalog + Entries([], delim) == st.catalog;
      } else {
        var st' := st.(catalog := st.catalog + [Mailbox(t, delim)], trace := st.trace + [Create(t)]);
        CreateAllIsChain(refuses, st', names[1..], delim);
        ChainAgreesStep(refuses, st, names, delim);
      }
    }
  }

  /** What CreateAllIsChain states. */
  predicate ChainAgrees(refuses: Verdict, st: State, names: seq<string>, delim: string)
  {
    var r := RunChain(refuses, st.trace, Creates(names));
    var c := CreateAll(refuses, st, names, delim);
    var k := AcceptedCount(r.0, r.1);
    && 0 <= k <= |names|
    && c.1 == r.1
    && c.0.trace == st.trace + r.0
    && c.0.catalog == st.catalog + Entries(names[..k], delim)
    && c.0.cntMbox == st.cntMbox && c.0.cntMsg == st.cntMsg
  }

  lemma ChainAgreesStep(refuses: Verdict, st: State, names: seq<string>, delim: string)
    requires names != [] && !refuses(st.trace, Create(names[0]))
    requires ChainAgrees(refuses, st.(catalog := st.catalog + [Mailbox(names[0], delim)],
                                      trace := st.trace + [Create(names[0])]), names[1..], delim)
    ensures ChainAgrees(refuses, st, names, delim)
  {
    var t, rest := names[0], names[1..];
    var h' := st.trace + [Create(t)];
    var st' := st.(catalog := st.catalog + [Mailbox(t, delim)], trace := h');
    CreatesCons(names);
    RunChainAccepted(refuses, st.trace, Create(t), Creates(rest));
    var r' := RunChain(refuses, h', Creates(rest));
    CatalogStep(st.catalog, names, AcceptedCount(r'.0, r'.1), delim);
    assert st'.trace + r'.0 == st.trace + ([Create(t)] + r'.0);
  }

  lemma CreatesCons(names: seq<string>)
    requires names != []
    ensures Creates(names) == [Create(names[0])] + Creates(names[1..])
  {
  }

  lemma CatalogStep(catalog: seq<Mailbox>, names: seq<string>, k: nat, delim: string)
    requires k < |names|
    ensures (catalog + [Mailbox(names[0], delim)]) + Entries(names[1..][..k], delim)
         == catalog + Entries(names[..k + 1], delim)
  {
    assert names[..k + 1] == [names[0]] + names[1..][..k];
    EntriesCons(names[0], names[1..][..k], delim);
  }

  lemma EntriesCons(t: string, names: seq<string>, delim: string)
    ensures Entries([t] + names, delim) == [Mailbox(t, delim)] + Entries(names, delim)
  {
  }

  /** Every missing name comes from `targets`, is not in `known` and
      appears once; every name of `targets` is known or missing. */
  lemma {:induction false} MissingFacts(targets: seq<string>, known: seq<string>)
    ensures var m := Missing(targets, known);
      && NoDuplicates(m)
      && (forall x :: x in m ==> x in targets && x !in known)
      && (forall x :: x in targets ==> x in known || x in m)
    decreases |targets|
  {
    if targets != [] {
      var t := targets[0];
      if t in known {
        MissingFacts(targets[1..], known);
      } else {
        MissingFacts(targets[1..], known + [t]);
        var m' := Missing(targets[1..], known + [t]);
        assert forall x :: x in targets ==> x == t || x in targets[1..];
        assert t !in m';
        assert Missing(targets, known) == [t] + m';
      }
    }
  }

  /** Missing names keep the order of `targets`: a relation that holds
      between every earlier and later target holds between every earlier
      and later missing name. */
  lemma {:induction false} MissingKeepsOrder(targets: seq<string>, known: seq<string>, delim: string)
    requires forall i, j :: 0 <= i < j < |targets| ==> Ancestor(targets[i], targets[j], delim)
    ensures var m := Missing(targets, known);
      forall i, j :: 0 <= i < j < |m| ==> Ancestor(m[i], m[j], delim)
    decreases |targets|
  {
    if targets != [] {
      var t := targets[0];
      var rest := targets[1..];
      assert forall i, j :: 0 <= i < j < |rest| ==> Ancestor(rest[i], rest[j], delim) by {
        forall i, j | 0 <= i < j < |rest| ensures Ancestor(rest[i], rest[j], delim) {
          assert rest[i] == targets[i + 1] && rest[j] == targets[j + 1];
        }
      }
      if t in known {
        MissingKeepsOrder(rest, known, delim);
        var m := Missing(targets, known);
        assert m == Missing(rest, known);
        assert forall i, j :: 0 <= i < j < |m| ==> Ancestor(m[i], m[j], delim);
      } else {
        MissingKeepsOrder(rest, known + [t], delim);
        MissingFacts(rest, known + [t]);
        var m' := Missing(rest, known + [t]);
        var m := [t] + m';
        forall i, j | 0 <= i < j < |m| ensures Ancestor(m[i], m[j], delim) {
          if i == 0 {
            assert m[j] in rest;
            var q :| 0 <= q < |rest| && rest[q] == m[j];
            assert targets[q + 1] == m[j];
          } else {
            assert m[i] == m'[i - 1] && m[j] == m'[j - 1];
          }
        }
      }
    }
  }

  lemma NamesOfEntries(names: seq<string>, delim: string)
    ensures Names(Entries(names, delim)) == names
  {
  }

  /** Whatever happens, the catalog gains the first few missing prefixes,
      in order, with the delimiter of the name being ensured, and nothing
      else. */
  lemma EnsureAppendsMissing(env: Env, st: State, targets: seq<string>, delim: string)
    ensures var st1 := EnsureSteps(env, st, targets, delim).0;
      var m := Missing(targets, Names(st.catalog));
      && |st.catalog| <= |st1.catalog| <= |st.catalog| + |m|
      && st1.catalog == st.catalog + Entries(m[..|st1.catalog| - |st.catalog|], delim)
      && st1.cntMbox == st.cntMbox && st1.cntMsg == st.cntMsg
  {
    var m := Missing(targets, Names(st.catalog));
    if env.cfg.dry {
      EnsureDryRun(env, st, targets, delim);
      assert m[..|m|] == m;
    } else {
      EnsureCreatesMissing(env, st, targets, delim);
      CreateAllIsChain(env.server.refuses, st, m, delim);
    }
  }

  /** On success, every prefix visited is in the catalog afterwards. */
  lemma EnsureCovers(env: Env, st: State, targets: seq<string>, delim: string)
    requires EnsureSteps(env, st, targets, delim).1
    ensures forall t :: t in targets ==> t in Names(EnsureSteps(env, st, targets, delim).0.catalog)
  {
    var known := Names(st.catalog);
    var m := Missing(targets, known);
    var st1 := EnsureSteps(env, st, targets, delim).0;
    MissingFacts(targets, known);
    if env.cfg.dry {
      EnsureDryRun(env, st, targets, delim);
    } else {
      EnsureCreatesMissing(env, st, targets, delim);
      CreateAllIsChain(env.server.refuses, st, m, delim);
      RunChainSucceedsIffAllAccepted(env.server.refuses, st.trace, Creates(m));
      assert m[..|m|] == m;
    }
    assert st1.catalog == st.catalog + Entries(m, delim);
    NamesAppend(st.catalog, Entries(m, delim));
    NamesOfEntries(m, delim);
  }

  /** No call introduces a duplicate name into the catalog. */
  lemma EnsureKeepsNamesUnique(env: Env, st: State, targets: seq<string>, delim: string)
    requires NoDuplicates(Names(st.catalog))
    ensures NoDuplicates(Names(EnsureSteps(env, st, targets, delim).0.catalog))
  {
    var known := Names(st.catalog);
    var m := Missing(targets, known);
    var st1 := EnsureSteps(env, st, targets, delim).0;
    EnsureAppendsMissing(env, st, targets, delim);
    var added := m[..|st1.catalog| - |st.catalog|];
    assert Names(st1.catalog) == known + added by {
      NamesAppend(st.catalog, Entries(added, delim));
      NamesOfEntries(added, delim);
    }
    MissingFacts(targets, known);
    assert NoDuplicates(added) && forall x :: x in added ==> x !in known by {
      forall x | x in added ensures x in m {
        var q :| 0 <= q < |added| && added[q] == x;
        assert m[q] == x;
      }
    }
    AppendUnique(known, added);
  }

  lemma AppendUnique(known: seq<string>, added: seq<string>)
    requires NoDuplicates(known) && NoDuplicates(added)
    requires forall x :: x in added ==> x !in known
    ensures NoDuplicates(known + added)
  {
    var all := known + added;
    forall i, j | 0 <= i < j < |all| ensures all[i] != all[j] {
      if j >= |known| {
        assert all[j] == added[j - |known|];
        if i >= |known| { assert all[i] == added[i - |known|]; }
        else { assert all[i] in known; assert all[j] in added; }
      }
    }
  }

  /** Names no longer missing: nothing to do. */
  lemma {:induction false} MissingNone(targets: seq<string>, known: seq<string>)
    requires forall t :: t in targets ==> t in known
    ensures Missing(targets, known) == []
    decreases |targets|
  {
    if targets != [] {
      assert targets[0] in targets;
      MissingNone(targets[1..], known);
    }
  }

  /** A second call with the same names, after a successful one, sends
      no CREATE and changes nothing. */
  lemma EnsureIdempotent(env: Env, st: State, targets: seq<string>, delim: string)
    requires EnsureSteps(env, st, targets, delim).1
    ensures var st1 := EnsureSteps(env, st, targets, delim).0;
      EnsureSteps(env, st1, targets, delim) == (st1, true)
  {
    var st1 := EnsureSteps(env, st, targets, delim).0;
    EnsureCovers(env, st, targets, delim);
    MissingNone(targets, Names(st1.catalog));
    if env.cfg.dry {
      EnsureDryRun(env, st1, targets, delim);
      assert st1.catalog + Entries([], delim) == st1.catalog;
    } else {
      EnsureCreatesMissing(env, st1, targets, delim);
    }
  }

  /** A dry run sends nothing, succeeds, and leaves the catalog exactly as
      any successful live run from the same state would. */
  lemma DryRunAppendsLikeLiveRun(dry: Env, live: Env, st: State, targets: seq<string>, delim: string)
    requires dry.cfg.dry && !live.cfg.dry
    requires EnsureSteps(live, st, targets, delim).1
    ensures EnsureSteps(dry, st, targets, delim)
         == (EnsureSteps(live, st, targets, delim).0.(trace := st.trace), true)
  {
    var m := Missing(targets, Names(st.catalog));
    EnsureDryRun(dry, st, targets, delim);
    EnsureCreatesMissing(live, st, targets, delim);
    CreateAllIsChain(live.server.refuses, st, m, delim);
    RunChainSucceedsIffAllAccepted(live.server.refuses, st.trace, Creates(m));
    assert m[..|m|] == m;
  }

  /** A refused CREATE ends the call at once: it was the CREATE of the next
      missing prefix, every missing prefix before it was created and
      appended, and neither it nor any deeper prefix was appended. */
  lemma EnsureStopsAtRefusedCreate(env: Env, st: State, targets: seq<string>, delim: string)
    requires !EnsureSteps(env, st, targets, delim).1
    ensures var st1 := EnsureSteps(env, st, targets, delim).0;
      var m := Missing(targets, Names(st.catalog));
      var k := |st1.catalog| - |st.catalog|;
      && !env.cfg.dry
      && 0 <= k < |m|
      && Names(st1.catalog) == Names(st.catalog) + m[..k]
      && st1.trace == st.trace + Creates(m[..k + 1])
      && env.server.refuses(st.trace + Creates(m[..k]), Create(m[k]))
  {
    var m := Missing(targets, Names(st.catalog));
    if env.cfg.dry {
      EnsureDryRun(env, st, targets, delim);
      assert false;
    }
    EnsureCreatesMissing(env, st, targets, delim);
    CreateAllStops(env.server.refuses, st, m, delim);
    var k := |CreateAll(env.server.refuses, st, m, delim).0.catalog| - |st.catalog|;
    NamesAppend(st.catalog, Entries(m[..k], delim));
    NamesOfEntries(m[..k], delim);
  }

  /** A failed chain of CREATEs: the names before the refused one were
      appended, and the refused one was sent last. */
  lemma CreateAllStops(r: Verdict, st: State, m: seq<string>, delim: string)
    requires !CreateAll(r, st, m, delim).1
    ensures var st1 := CreateAll(r, st, m, delim).0;
      var k := |st1.catalog| - |st.catalog|;
      && 0 <= k < |m|
      && st1.catalog == st.catalog + Entries(m[..k], delim)
      && st1.trace == st.trace + Creates(m[..k + 1])
      && r(st.trace + Creates(m[..k]), Create(m[k]))
  {
    CreateAllIsChain(r, st, m, delim);
    RunChainSucceedsIffAllAccepted(r, st.trace, Creates(m));
    RunChainFailsAtLast(r, st.trace, Creates(m));
    var sent := RunChain(r, st.trace, Creates(m)).0;
    var k := |sent| - 1;
    assert sent == Creates(m)[..k + 1];
    assert Creates(m)[..k + 1] == Creates(m[..k + 1]);
    assert sent[..k] == Creates(m[..k]);
    assert sent[k] == Create(m[k]);
  }

  /** The prefixes `ensureAvailable` appends come ancestors first: each
      one appended is an ancestor of every one appended after it. */
  lemma EnsureAvailableAncestorFirst(env: Env, st: State, mbox: Mailbox)
    ensures var st1 := EnsureAvailable(env, st, mbox).0;
      var n := |st.catalog|;
      forall i, j :: n <= i < j < |st1.catalog| ==>
        Ancestor(st1.catalog[i].name, st1.catalog[j].name, mbox.delimiter)
  {
    var d := mbox.delimiter;
    var targets := Targets(Split(mbox.name, d), d);
    forall i, j | 0 <= i < j < |targets| ensures Ancestor(targets[i], targets[j], d) {
      TargetsAncestorFirst(Split(mbox.name, d), d, i, j);
    }
    assert EnsureAvailable(env, st, mbox) == EnsureSteps(env, st, targets, d);
    EnsureKeepsOrder(env, st, targets, d);
  }

  /** An order among the targets carries over to the entries appended. */
  lemma EnsureKeepsOrder(env: Env, st: State, targets: seq<string>, d: string)
    requires forall i, j :: 0 <= i < j < |targets| ==> Ancestor(targets[i], targets[j], d)
    ensures var st1 := EnsureSteps(env, st, targets, d).0;
      var n := |st.catalog|;
      forall i, j :: n <= i < j < |st1.catalog| ==>
        Ancestor(st1.catalog[i].name, st1.catalog[j].name, d)
  {
    var st1 := EnsureSteps(env, st, targets, d).0;
    var n := |st.catalog|;
    var m := Missing(targets, Names(st.catalog));
    MissingKeepsOrder(targets, Names(st.catalog), d);
    EnsureAppendsMissing(env, st, targets, d);
    var added := Entries(m[..|st1.catalog| - n], d);
    forall i, j | n <= i < j < |st1.catalog|
      ensures Ancestor(st1.catalog[i].name, st1.catalog[j].name, d)
    {
      assert st1.catalog[i] == added[i - n] == Mailbox(m[i - n], d);
      assert st1.catalog[j] == added[j - n] == Mailbox(m[j - n], d);
    }
  }

  /** After a successful call the mailbox itself exists, unless its name
      begins with the delimiter (see Paths.LeadingDelimiterDropped) or is
      empty with an empty delimiter. */
  lemma EnsureAvailableCreatesName(env: Env, st: State, mbox: Mailbox)
    requires EnsureAvailable(env, st, mbox).1
    requires var d := mbox.delimiter;
      (d != [] && !(d <= mbox.name)) || (d == [] && mbox.name != [])
    ensures mbox.name in Names(EnsureAvailable(env, st, mbox).0.catalog)
  {
    var d := mbox.delimiter;
    var targets := Targets(Split(mbox.name, d), d);
    NameAmongTargets(mbox.name, d);
    assert EnsureAvailable(env, st, mbox) == EnsureSteps(env, st, targets, d);
    EnsureCovers(env, st, targets, d);
  }

  /** `ensureAvailable` sends nothing but CREATE commands, and none at all
      in dry-run. */
  lemma EnsureSendsOnlyCreates(env: Env, st: State, targets: seq<string>, delim: string)
    ensures var st1 := EnsureSteps(env, st, targets, delim).0;
      && st.trace <= st1.trace
      && (forall c :: c in st1.trace[|st.trace|..] ==> c.Create?)
      && (env.cfg.dry ==> st1.trace == st.trace)
  {
    var m := Missing(targets, Names(st.catalog));
    var st1 := EnsureSteps(env, st, targets, delim).0;
    if env.cfg.dry {
      EnsureDryRun(env, st, targets, delim);
    } else {
      EnsureCreatesMissing(env, st, targets, delim);
      CreateAllIsChain(env.server.refuses, st, m, delim);
      RunChainSucceedsIffAllAccepted(env.server.refuses, st.trace, Creates(m));
      var sent := RunChain(env.server.refuses, st.trace, Creates(m)).0;
      assert st1.trace[|st.trace|..] == sent;
      forall c | c in sent ensures c.Create? {
        var q :| 0 <= q < |sent| && sent[q] == c;
        assert c == Creates(m)[q];
      }
    }
  }

  /** The catalog gains no name but the visited ones. */
  lemma EnsureAddsOnlyTargets(env: Env, st: State, targets: seq<string>, delim: string)
    ensures forall x :: x in Names(EnsureSteps(env, st, targets, delim).0.catalog) ==>
      x in Names(st.catalog) || x in targets
  {
    var m := Missing(targets, Names(st.catalog));
    var st1 := EnsureSteps(env, st, targets, delim).0;
    EnsureAppendsMissing(env, st, targets, delim);
    MissingFacts(targets, Names(st.catalog));
    var added := m[..|st1.catalog| - |st.catalog|];
    NamesAppend(st.catalog, Entries(added, delim));
    NamesOfEntries(added, delim);
    assert forall x :: x in added ==> x in m;
  }

  /** A name that starts with its delimiter, and is not in the catalog yet,
      is still not in it after `ensureAvailable`, even when that succeeds:
      the name itself is never among the prefixes visited. */
  lemma LeadingDelimiterNeverCreated(env: Env, st: State, mbox: Mailbox)
    requires mbox.delimiter != [] && mbox.delimiter <= mbox.name
    requires mbox.name !in Names(st.catalog)
    ensures mbox.name !in Names(EnsureAvailable(env, st, mbox).0.catalog)
  {
    var d := mbox.delimiter;
    var targets := Targets(Split(mbox.name, d), d);
    LeadingDelimiterNeverTarget(mbox.name, d);
    assert EnsureAvailable(env, st, mbox) == EnsureSteps(env, st, targets, d);
    EnsureAddsOnlyTargets(env, st, targets, d);
  }
}
