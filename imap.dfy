/**
 * The IMAP commands the archiver sends, how a chain of them stops at the
 * first one the server refuses, the two ways of moving a message
 * (the UID MOVE of the MOVE extension, RFC 6851 section 3, or UID COPY,
 * UID STORE +FLAGS.SILENT (\Deleted) and EXPUNGE, RFC 3501 sections 6.4.7,
 * 6.4.6, 6.4.3 and 6.4.8), and an abstract mail store in which the two
 * ways can be compared.
 */
module Imap {
  import opened Optional

  /** Unique identifiers are non-zero 32-bit numbers (RFC 3501 section 2.3.1.1). */
  type Uid = u: int | 1 <= u < 0x1_0000_0000 witness 1

  datatype Command =
    | Create(name: string)
    | Select(mailbox: string)
    | UidFetchAll
    | UidMove(uid: Uid, target: string)
    | UidCopy(uid: Uid, target: string)
    | UidStoreDeleted(uid: Uid)
    | Expunge

  /** The server's verdict on a command, given the commands sent before it. */
  type Verdict = (seq<Command>, Command) -> bool

  /** Sends `chain` in order after the history `h` and stops at the first
      command the server refuses; returns the commands sent and whether all
      of them were accepted. */
  function RunChain(refuses: Verdict, h: seq<Command>, chain: seq<Command>): (seq<Command>, bool)
    decreases |chain|
  {
    if chain == [] then ([], true)
    else if refuses(h, chain[0]) then ([chain[0]], false)
    else
      var (rest, ok) := RunChain(refuses, h + [chain[0]], chain[1..]);
      ([chain[0]] + rest, ok)
  }

  /** No command of `chain` is refused when sent after `h` and its predecessors. */
  predicate AllAccepted(refuses: Verdict, h: seq<Command>, chain: seq<Command>)
  {
    forall i :: 0 <= i < |chain| ==> !refuses(h + chain[..i], chain[i])
  }

  /** Acceptance of a chain, one command at a time. */
  lemma AllAcceptedCons(refuses: Verdict, h: seq<Command>, c: Command, rest: seq<Command>)
    ensures AllAccepted(refuses, h, [c] + rest)
        <==> !refuses(h, c) && AllAccepted(refuses, h + [c], rest)
  {
    var chain := [c] + rest;
    assert chain[..0] == [] && h + [] == h;
    forall i | 1 <= i < |chain|
      ensures h + chain[..i] == (h + [c]) + rest[..i - 1] && chain[i] == rest[i - 1]
    {
      assert chain[..i] == [c] + rest[..i - 1];
    }
    if !refuses(h, c) && AllAccepted(refuses, h + [c], rest) {
      forall i | 0 <= i < |chain| ensures !refuses(h + chain[..i], chain[i]) {
        if i > 0 { assert !refuses((h + [c]) + rest[..i - 1], rest[i - 1]); }
      }
    }
    if AllAccepted(refuses, h, chain) {
      forall i | 0 <= i < |rest| ensures !refuses((h + [c]) + rest[..i], rest[i]) {
        assert !refuses(h + chain[..i + 1], chain[i + 1]);
      }
    }
  }

  /** An accepted first command is followed by the rest of the chain. */
  lemma RunChainAccepted(refuses: Verdict, h: seq<Command>, c: Command, rest: seq<Command>)
    requires !refuses(h, c)
    ensures RunChain(refuses, h, [c] + rest)
         == ([c] + RunChain(refuses, h + [c], rest).0, RunChain(refuses, h + [c], rest).1)
  {
    assert ([c] + rest)[0] == c && ([c] + rest)[1..] == rest;
  }

  /** The chain stops at the first failure: what is sent is a prefix of the
      chain, and the chain succeeds exactly when the whole chain was sent
      and every command was accepted. */
  lemma {:induction false} RunChainSucceedsIffAllAccepted(refuses: Verdict, h: seq<Command>, chain: seq<Command>)
    ensures RunChain(refuses, h, chain).0 <= chain
    ensures RunChain(refuses, h, chain).1 <==> RunChain(refuses, h, chain).0 == chain && AllAccepted(refuses, h, chain)
    decreases |chain|
  {
    if chain != [] {
      var c := chain[0];
      assert chain == [c] + chain[1..];
      AllAcceptedCons(refuses, h, c, chain[1..]);
      if !refuses(h, c) {
        RunChainSucceedsIffAllAccepted(refuses, h + [c], chain[1..]);
      }
    }
  }

  /** When the chain fails, the last command sent is the one the server
      refused, and every command sent before it was accepted. */
  lemma {:induction false} RunChainFailsAtLast(refuses: Verdict, h: seq<Command>, chain: seq<Command>)
    requires !RunChain(refuses, h, chain).1
    ensures var sent := RunChain(refuses, h, chain).0;
      && |sent| >= 1
      && refuses(h + sent[..|sent| - 1], sent[|sent| - 1])
      && AllAccepted(refuses, h, sent[..|sent| - 1])
    decreases |chain|
  {
    var c := chain[0];
    if refuses(h, c) {
      assert [c][..0] == [] && h + [] == h;
    } else {
      RunChainFailsAtLast(refuses, h + [c], chain[1..]);
      var rest := RunChain(refuses, h + [c], chain[1..]).0;
      var sent := [c] + rest;
      assert sent[..|sent| - 1] == [c] + rest[..|rest| - 1];
      assert h + sent[..|sent| - 1] == (h + [c]) + rest[..|rest| - 1];
      AllAcceptedCons(refuses, h, c, rest[..|rest| - 1]);
    }
  }

  /** The commands `(*imapClient).Move` sends for one message: one UID MOVE
      when the server announced the MOVE capability, otherwise UID COPY, then
      UID STORE adding \Deleted, then EXPUNGE. */
  function MoveChain(supportMove: bool, uid: Uid, target: string): (chain: seq<Command>)
    ensures |chain| >= 1 && (supportMove <==> |chain| == 1)
    ensures (chain[0].UidMove? || chain[0].UidCopy?) && chain[0].uid == uid && chain[0].target == target
    ensures supportMove ==> chain[0].UidMove?
    ensures !supportMove ==> |chain| == 3 && chain[0].UidCopy? && chain[1] == UidStoreDeleted(uid)
    ensures chain[|chain| - 1].Expunge? <==> !supportMove
    ensures forall c :: c in chain ==>
      c.Expunge? || ((c.UidMove? || c.UidCopy? || c.UidStoreDeleted?) && c.uid == uid)
  {
    if supportMove then [UidMove(uid, target)]
    else [UidCopy(uid, target), UidStoreDeleted(uid), Expunge]
  }

  /** An abstract mail store: for each mailbox, its messages and whether
      each carries the \Deleted flag. A message keeps its identifier when
      copied, which is enough to compare the two ways of moving. */
  type Boxes = map<string, map<Uid, bool>>

  /** The effect of one command on the store while `selected` is the
      selected mailbox; `None` when the server would answer NO. A UID that
      is not in the selected mailbox is ignored (RFC 3501 section 6.4.8). */
  function Apply(boxes: Boxes, selected: string, c: Command): Option<Boxes>
  {
    if selected !in boxes then None
    else
      var src := boxes[selected];
      match c
      case UidMove(u, t) =>
        if t !in boxes then None
        else if u !in src then Some(boxes)
        else
          var into: map<Uid, bool> := boxes[t][u := src[u]];
          var b := boxes[t := into];
          Some(b[selected := b[selected] - {u}])
      case UidCopy(u, t) =>
        if t !in boxes then None
        else if u !in src then Some(boxes)
        else
          var into: map<Uid, bool> := boxes[t][u := src[u]];
          Some(boxes[t := into])
      case UidStoreDeleted(u) =>
        if u !in src then Some(boxes) else Some(boxes[selected := src[u := true]])
      case Expunge =>
        Some(boxes[selected := Expunged(src)])
      case Create(n) =>
        if n in boxes then None else Some(boxes[n := map[]])
      case Select(_) => Some(boxes)
      case UidFetchAll => Some(boxes)
  }

  /** The effect of a sequence of commands; the first refusal stops it. */
  function Run(boxes: Boxes, selected: string, cmds: seq<Command>): Option<Boxes>
    decreases |cmds|
  {
    if cmds == [] then Some(boxes)
    else match Apply(boxes, selected, cmds[0])
      case None => None
      case Some(b) => Run(b, selected, cmds[1..])
  }

  /** The messages of a mailbox that are not flagged \Deleted. */
  function Expunged(box: map<Uid, bool>): map<Uid, bool>
  {
    map v | v in box && !box[v] :: box[v]
  }

  /** What each way of moving does to the store: both put the message, with
      its flag, into the target; UID MOVE removes just that message from
      the source, the fallback flags it and then removes every flagged one. */
  lemma MoveChainsEffect(boxes: Boxes, selected: string, u: Uid, t: string)
    requires selected in boxes && t in boxes && selected != t && u in boxes[selected]
    ensures var src := boxes[selected];
      var into: map<Uid, bool> := boxes[t][u := src[u]];
      && Run(boxes, selected, MoveChain(true, u, t)) == Some(boxes[t := into][selected := src - {u}])
      && Run(boxes, selected, MoveChain(false, u, t)) == Some(boxes[t := into][selected := Expunged(src[u := true])])
  {
    var src := boxes[selected];
    var into: map<Uid, bool> := boxes[t][u := src[u]];
    var b1 := boxes[t := into];
    var flagged := src[u := true];
    var b2 := b1[selected := flagged];
    var b3 := b2[selected := Expunged(flagged)];
    assert b1[selected] == src;
    assert b2[selected] == flagged;
    assert Run(boxes, selected, [UidMove(u, t)]) == Run(b1[selected := src - {u}], selected, []);
    assert Run(b2, selected, [Expunge]) == Some(b3);
    assert Run(b1, selected, [UidStoreDeleted(u), Expunge]) == Run(b2, selected, [Expunge]);
    assert Run(boxes, selected, [UidCopy(u, t), UidStoreDeleted(u), Expunge])
        == Run(b1, selected, [UidStoreDeleted(u), Expunge]);
    assert b3 == b1[selected := Expunged(flagged)];
  }

  /** The fallback ends in the same store as UID MOVE exactly when no other
      message of the source mailbox is already flagged \Deleted: EXPUNGE
      removes every flagged message, UID MOVE only the one it moves. */
  lemma FallbackMatchesMoveIff(boxes: Boxes, selected: string, u: Uid, t: string)
    requires selected in boxes && t in boxes && selected != t && u in boxes[selected]
    ensures Run(boxes, selected, MoveChain(false, u, t)) == Run(boxes, selected, MoveChain(true, u, t))
        <==> forall v :: v in boxes[selected] && v != u ==> !boxes[selected][v]
  {
    MoveChainsEffect(boxes, selected, u, t);
    var src := boxes[selected];
    var into: map<Uid, bool> := boxes[t][u := src[u]];
    var b1 := boxes[t := into];
    if forall v :: v in src && v != u ==> !src[v] {
      assert Expunged(src[u := true]) == src - {u};
    } else {
      var v :| v in src && v != u && src[v];
      assert v !in Expunged(src[u := true]);
      assert v in (src - {u});
      assert b1[selected := src - {u}][selected] != b1[selected := Expunged(src[u := true])][selected];
    }
  }
}
