/**
 * Hierarchical mailbox names: splitting a name on the server's delimiter
 * (Go's `strings.Split`) and the cumulative prefix names that
 * `ensureAvailable` builds from the segments, one per depth.
 */
module Paths {

  /** `strings.Split(s, sep)`: the pieces of `s` between the leftmost
      non-overlapping occurrences of `sep`. With an empty `sep`, Go splits
      into single characters, and an empty `s` gives no pieces at all. */
  function Split(s: string, sep: string): (parts: seq<string>)
    ensures sep != [] ==> |parts| >= 1 && Join(parts, sep) == s
    ensures sep != [] ==> forall i :: 0 <= i < |parts| ==> !Occurs(sep, parts[i])
    ensures sep == [] ==> |parts| == |s| && forall i :: 0 <= i < |s| ==> parts[i] == [s[i]]
    decreases |s|
  {
    if sep == [] then Explode(s)
    else if |s| < |sep| then [s]
    else if s[..|sep|] == sep then
      var rest := Split(s[|sep|..], sep);
      assert s == sep + s[|sep|..];
      [""] + rest
    else
      var rest := Split(s[1..], sep);
      JoinConsChar(s[0], rest, sep);
      JoinHead(rest, sep);
      PrependFree(s, rest[0], sep);
      assert s == [s[0]] + s[1..];
      [[s[0]] + rest[0]] + rest[1..]
  }

  /** `sep` occurs somewhere in `p`. */
  predicate Occurs(sep: string, p: string)
  {
    exists j: nat :: j + |sep| <= |p| && Window(p, j, |sep|) == sep
  }

  /** The `n` characters of `p` starting at position `j`. */
  function Window(p: string, j: nat, n: nat): (w: string)
    requires j + n <= |p|
    ensures |w| == n && forall k :: 0 <= k < n ==> w[k] == p[j + k]
  {
    p[j..j + n]
  }

  /** The first piece is where the joined string begins. */
  lemma JoinHead(parts: seq<string>, sep: string)
    requires |parts| >= 1
    ensures parts[0] <= Join(parts, sep)
  {
  }

  /** A piece that starts where `s[1..]` starts and is free of `sep` stays
      free of it when `s[0]` is put in front, provided `s` itself does not
      start with `sep`. */
  lemma PrependFree(s: string, p: string, sep: string)
    requires sep != [] && |s| >= |sep| && s[..|sep|] != sep
    requires p <= s[1..] && !Occurs(sep, p)
    ensures !Occurs(sep, [s[0]] + p)
  {
    var q := [s[0]] + p;
    assert q == s[..|q|] by {
      assert p == s[1..][..|p|];
      assert s == [s[0]] + s[1..];
    }
    forall j: nat | j + |sep| <= |q| ensures Window(q, j, |sep|) != sep {
      if j == 0 {
        assert Window(q, 0, |sep|) == s[..|sep|];
      } else {
        assert Window(q, j, |sep|) == Window(p, j - 1, |sep|);
      }
    }
  }

  /** One single-character piece per character. */
  function Explode(s: string): (parts: seq<string>)
    ensures |parts| == |s| && forall i :: 0 <= i < |s| ==> parts[i] == [s[i]]
  {
    seq(|s|, i requires 0 <= i < |s| => [s[i]])
  }

  /** `strings.Join(parts, sep)` for a non-empty list of pieces. */
  function Join(parts: seq<string>, sep: string): string
    requires |parts| >= 1
  {
    if |parts| == 1 then parts[0] else parts[0] + sep + Join(parts[1..], sep)
  }

  /** Prepending a character to the first piece prepends it to the joined string. */
  lemma JoinConsChar(c: char, parts: seq<string>, sep: string)
    requires |parts| >= 1
    ensures Join([[c] + parts[0]] + parts[1..], sep) == [c] + Join(parts, sep)
  {
    var q := [[c] + parts[0]] + parts[1..];
    assert q[1..] == parts[1..];
  }

  /** Joining one more piece at the end. */
  lemma {:induction false} JoinSnoc(parts: seq<string>, p: string, sep: string)
    requires |parts| >= 1
    ensures Join(parts + [p], sep) == Join(parts, sep) + sep + p
  {
    if |parts| == 1 {
      assert (parts + [p])[1..] == [p];
    } else {
      assert (parts + [p])[1..] == parts[1..] + [p];
      JoinSnoc(parts[1..], p, sep);
    }
  }

  /** The name `ensureAvailable` builds for depth `k` (0-based): the pieces
      `parts[0..k]` appended one by one, with the delimiter put in front of a
      piece only when the name built so far is non-empty. */
  function Cumulative(parts: seq<string>, sep: string, k: nat): string
    requires k < |parts|
  {
    if k == 0 then parts[0]
    else
      var t := Cumulative(parts, sep, k - 1);
      if |t| > 0 then t + sep + parts[k] else parts[k]
  }

  /** The names `ensureAvailable` checks, in the order it checks them
      (increasing depth). */
  function Targets(parts: seq<string>, sep: string): (ts: seq<string>)
    ensures |ts| == |parts|
    ensures forall k :: 0 <= k < |parts| ==> ts[k] == Cumulative(parts, sep, k)
  {
    seq(|parts|, k requires 0 <= k < |parts| => Cumulative(parts, sep, k))
  }

  /** `a` is an ancestor of `b` in the hierarchy: `b` starts with `a`
      followed by the delimiter. The empty name, which the construction above
      never follows with a delimiter, counts as an ancestor of every name. */
  predicate Ancestor(a: string, b: string, sep: string)
  {
    a == [] || a + sep <= b
  }

  /** Each depth's name starts with the previous one; once the name is
      non-empty, the next depth adds the delimiter and a piece. */
  lemma CumulativeStep(parts: seq<string>, sep: string, k: nat)
    requires k + 1 < |parts|
    ensures Cumulative(parts, sep, k) <= Cumulative(parts, sep, k + 1)
    ensures Cumulative(parts, sep, k) != [] ==>
      Cumulative(parts, sep, k) + sep <= Cumulative(parts, sep, k + 1)
  {
    var t := Cumulative(parts, sep, k);
    if t != [] {
      assert Cumulative(parts, sep, k + 1) == t + sep + parts[k + 1];
      assert (t + sep + parts[k + 1])[..|t + sep|] == t + sep;
    }
  }

  lemma {:induction false} CumulativePrefix(parts: seq<string>, sep: string, i: nat, j: nat)
    requires i <= j < |parts|
    ensures Cumulative(parts, sep, i) <= Cumulative(parts, sep, j)
    decreases j - i
  {
    if i < j {
      CumulativeStep(parts, sep, i);
      CumulativePrefix(parts, sep, i + 1, j);
    }
  }

  /** Ancestor-first order: the names `ensureAvailable` visits are the
      successive ancestors of the deepest one, shallowest first. */
  lemma TargetsAncestorFirst(parts: seq<string>, sep: string, i: nat, j: nat)
    requires i < j < |parts|
    ensures Ancestor(Targets(parts, sep)[i], Targets(parts, sep)[j], sep)
  {
    var t := Cumulative(parts, sep, i);
    if t != [] {
      CumulativeStep(parts, sep, i);
      CumulativePrefix(parts, sep, i + 1, j);
    }
  }

  /** When the first piece is non-empty, the name built for depth `k` is
      exactly the delimiter-joined prefix `parts[0..k]`. */
  lemma {:induction false} CumulativeIsJoin(parts: seq<string>, sep: string, k: nat)
    requires k < |parts| && parts[0] != []
    ensures Cumulative(parts, sep, k) == Join(parts[..k + 1], sep)
  {
    if k > 0 {
      CumulativeIsJoin(parts, sep, k - 1);
      CumulativePrefix(parts, sep, 0, k - 1);
      assert parts[..k + 1] == parts[..k] + [parts[k]];
      JoinSnoc(parts[..k], parts[k], sep);
    } else {
      assert parts[..1] == [parts[0]];
    }
  }

  /** A name that does not begin with the delimiter splits into a first
      piece that is non-empty, unless the name itself is empty. */
  lemma SplitHead(s: string, sep: string)
    requires sep != [] && s != [] && !(sep <= s)
    ensures Split(s, sep)[0] != []
  {
  }

  /** The deepest name `ensureAvailable` visits is the name it was given,
      provided the name is non-empty and does not begin with the delimiter
      (for a non-empty delimiter, the empty name also qualifies). */
  lemma DeepestTargetIsName(s: string, sep: string)
    requires (sep != [] && !(sep <= s)) || (sep == [] && s != [])
    ensures |Split(s, sep)| >= 1
    ensures Cumulative(Split(s, sep), sep, |Split(s, sep)| - 1) == s
  {
    if sep == [] {
      assert Split(s, sep) == Explode(s);
      ExplodedDeepest(s);
    } else if s == [] {
      assert Split(s, sep) == [s];
    } else {
      SplitDeepest(s, sep);
    }
  }

  /** The case of a non-empty name and delimiter. */
  lemma SplitDeepest(s: string, sep: string)
    requires sep != [] && s != [] && !(sep <= s)
    ensures Cumulative(Split(s, sep), sep, |Split(s, sep)| - 1) == s
  {
    var parts := Split(s, sep);
    SplitHead(s, sep);
    JoinedDeepest(parts, sep);
    assert Join(parts, sep) == s;
  }

  /** Under the same condition, the name is among the names visited. */
  lemma NameAmongTargets(s: string, sep: string)
    requires (sep != [] && !(sep <= s)) || (sep == [] && s != [])
    ensures s in Targets(Split(s, sep), sep)
  {
    var parts := Split(s, sep);
    DeepestTargetIsName(s, sep);
    var targets := Targets(parts, sep);
    var n := |parts|;
    assert targets[n - 1] == Cumulative(parts, sep, n - 1);
  }

  /** When the first piece is non-empty, the deepest name is all the pieces
      joined. */
  lemma JoinedDeepest(parts: seq<string>, sep: string)
    requires |parts| >= 1 && parts[0] != []
    ensures Cumulative(parts, sep, |parts| - 1) == Join(parts, sep)
  {
    CumulativeIsJoin(parts, sep, |parts| - 1);
    assert parts[..|parts|] == parts;
  }

  lemma ExplodedDeepest(s: string)
    requires s != []
    ensures Cumulative(Explode(s), [], |s| - 1) == s
  {
    ExplodedPrefix(s, |s| - 1);
    assert s[..|s|] == s;
  }

  /** With no delimiter the name of depth `k` is the first `k + 1` characters. */
  lemma {:induction false} ExplodedPrefix(s: string, k: nat)
    requires k < |s|
    ensures Cumulative(Explode(s), [], k) == s[..k + 1]
    decreases k
  {
    if k > 0 {
      ExplodedPrefix(s, k - 1);
      assert s[..k + 1] == s[..k] + [s[k]];
    }
  }

  /** A name that begins with the delimiter: the construction drops the
      leading delimiter, so the names visited for "/x" are "" and "x", and
      "/x" itself is not among them. */
  lemma LeadingDelimiterDropped()
    ensures Targets(Split("/x", "/"), "/") == ["", "x"]
  {
    assert "/x"[..1] == "/";
    assert Split("x", "/") == ["x"];
    assert Split("/x", "/") == ["", "x"];
  }

  /** A name that starts with the delimiter is never among the names visited
      for it: the empty first piece is skipped, so every visited name is
      shorter than the name itself. */
  lemma LeadingDelimiterNeverTarget(s: string, sep: string)
    requires sep != [] && sep <= s
    ensures forall t :: t in Targets(Split(s, sep), sep) ==> |t| < |s|
    ensures s !in Targets(Split(s, sep), sep)
  {
    SplitAtSep(s, sep);
    var parts := Split(s, sep);
    assert |Join(parts[1..], sep)| < |s| by {
      assert parts[1..] == Split(s[|sep|..], sep);
    }
    forall k | 0 <= k < |parts| ensures |Cumulative(parts, sep, k)| < |s| {
      if k > 0 {
        DeeperNamesShorter(parts, sep, k);
      }
    }
  }

  /** After an empty first piece, no deeper name is longer than the other
      pieces joined. */
  lemma DeeperNamesShorter(parts: seq<string>, sep: string, k: nat)
    requires 1 <= k < |parts| && parts[0] == []
    ensures |Cumulative(parts, sep, k)| <= |Join(parts[1..], sep)|
  {
    CumulativeDropEmpty(parts, sep, k);
    CumulativeBound(parts[1..], sep, k - 1);
    JoinPrefixBound(parts[1..], sep, k);
  }

  /** After an empty first piece, depth `k` names what depth `k - 1` of
      the remaining pieces names. */
  lemma {:induction false} CumulativeDropEmpty(parts: seq<string>, sep: string, k: nat)
    requires 1 <= k < |parts| && parts[0] == []
    ensures Cumulative(parts, sep, k) == Cumulative(parts[1..], sep, k - 1)
  {
    if k > 1 {
      CumulativeDropEmpty(parts, sep, k - 1);
    }
  }

  /** The name for depth `k` is no longer than the first `k + 1` pieces joined. */
  lemma {:induction false} CumulativeBound(parts: seq<string>, sep: string, k: nat)
    requires k < |parts|
    ensures |Cumulative(parts, sep, k)| <= |Join(parts[..k + 1], sep)|
  {
    if k > 0 {
      CumulativeBound(parts, sep, k - 1);
      assert parts[..k + 1] == parts[..k] + [parts[k]];
      JoinSnoc(parts[..k], parts[k], sep);
    }
  }

  /** Joining the first `m` pieces gives no more than joining all of them. */
  lemma {:induction false} JoinPrefixBound(parts: seq<string>, sep: string, m: nat)
    requires 1 <= m <= |parts|
    ensures |Join(parts[..m], sep)| <= |Join(parts, sep)|
    decreases |parts| - m
  {
    if m < |parts| {
      JoinPrefixBound(parts, sep, m + 1);
      assert parts[..m + 1] == parts[..m] + [parts[m]];
      JoinSnoc(parts[..m], parts[m], sep);
    } else {
      assert parts[..m] == parts;
    }
  }

  /** "A/2/1" is visited as "A", "A/2" and "A/2/1", one name per level. */
  lemma ExampleNestedTargets()
    ensures Targets(Split("A/2/1", "/"), "/") == ["A", "A/2", "A/2/1"]
  {
    NestedPieces();
    NestedNames();
  }

  /** The cumulative names of the pieces "A", "2", "1". */
  lemma NestedNames()
    ensures Targets(["A", "2", "1"], "/") == ["A", "A/2", "A/2/1"]
  {
    var parts := ["A", "2", "1"];
    assert Cumulative(parts, "/", 0) == "A";
    assert Cumulative(parts, "/", 1) == "A/2";
    assert Cumulative(parts, "/", 2) == "A/2/1";
    var ts := Targets(parts, "/");
    assert ts[0] == "A" && ts[1] == "A/2" && ts[2] == "A/2/1";
  }

  /** "A/2/1" splits into one piece per level. */
  lemma NestedPieces()
    ensures Split("A/2/1", "/") == ["A", "2", "1"]
  {
    assert Split("1", "/") == ["1"];
    SplitAtSep("/1", "/");
    assert "/1"[1..] == "1";
    SplitAtChar("2/1", "/");
    assert "2/1"[1..] == "/1" && "2/1"[0] == '2';
    assert ['2'] + "" == "2";
    assert Split("2/1", "/") == ["2", "1"];
    SplitAtSep("/2/1", "/");
    assert "/2/1"[1..] == "2/1";
    SplitAtChar("A/2/1", "/");
    assert "A/2/1"[1..] == "/2/1" && "A/2/1"[0] == 'A';
    assert ['A'] + "" == "A";
  }

  /** One step of `Split` at a string that starts with the separator. */
  lemma SplitAtSep(s: string, sep: string)
    requires sep != [] && sep <= s
    ensures Split(s, sep) == [""] + Split(s[|sep|..], sep)
  {
  }

  /** One step of `Split` at a string that does not start with the separator. */
  lemma SplitAtChar(s: string, sep: string)
    requires sep != [] && |s| >= |sep| && !(sep <= s)
    ensures var rest := Split(s[1..], sep); Split(s, sep) == [[s[0]] + rest[0]] + rest[1..]
  {
  }
}
