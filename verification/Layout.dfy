/** Where the relocated instructions stand: which destinations have been emitted, and how far apart they are. */
module Layout {
  import opened Words
  import opened Hde64
  import opened Hde64Laws
  import opened Instructions
  import opened X64
  import opened Relocation

  // ---------------------------------------------------------------------
  // Offsets
  // ---------------------------------------------------------------------

  lemma {:induction false} Adjacent(es: seq<Entry>, oldPos: int, newPos: int, k: int)
    requires BackToBack(es, oldPos, newPos) && 0 <= k < |es|
    ensures k == 0 ==> es[k].src == 0 && es[k].dst == 0
    ensures es[k].src + es[k].inst.len == if k + 1 < |es| then es[k + 1].src else oldPos
    ensures es[k].dst + |es[k].bytes| == if k + 1 < |es| then es[k + 1].dst else newPos
  {
    var e := es[|es| - 1];
    if k < |es| - 1 {
      Adjacent(es[..|es| - 1], e.src, e.dst, k);
    } else if k > 0 {
      Adjacent(es[..|es| - 1], e.src, e.dst, k - 1);
    }
  }

  /** Between two entries whose instructions in between kept their lengths the distance is kept. */
  lemma {:induction false} SpanDistance(es: seq<Entry>, oldPos: int, newPos: int, i: int, j: int)
    requires BackToBack(es, oldPos, newPos) && 0 <= i <= j < |es|
    requires forall k :: i <= k < j ==> |es[k].bytes| == es[k].inst.len
    ensures es[j].dst - es[i].dst == es[j].src - es[i].src
    decreases j - i
  {
    if i < j {
      Adjacent(es, oldPos, newPos, j - 1);
      SpanDistance(es, oldPos, newPos, i, j - 1);
    }
  }

  lemma {:induction false} SourceIncreasing(es: seq<Entry>, oldPos: int, newPos: int, i: int, j: int)
    requires BackToBack(es, oldPos, newPos) && 0 <= i < j < |es|
    requires forall k :: 0 <= k < |es| ==> es[k].inst.len >= 1
    ensures es[i].src < es[j].src
    decreases j - i
  {
    Adjacent(es, oldPos, newPos, j - 1);
    if i < j - 1 {
      SourceIncreasing(es, oldPos, newPos, i, j - 1);
    }
  }

  /** Every entry's code ends where the trampoline has got to, or before. */
  lemma {:induction false} EndsBelow(es: seq<Entry>, oldPos: int, newPos: int, k: int)
    requires BackToBack(es, oldPos, newPos) && 0 <= k < |es|
    ensures es[k].dst + |es[k].bytes| <= newPos
  {
    var e := es[|es| - 1];
    if k < |es| - 1 {
      EndsBelow(es[..|es| - 1], e.src, e.dst, k);
    }
  }

  // ---------------------------------------------------------------------
  // Instruction boundaries
  // ---------------------------------------------------------------------

  /** Decoding the target linearly from offset `from` on reaches offset p. */
  ghost predicate Boundary(t: Table, m: Mem, target: int, from: int, p: int)
    decreases p - from
  {
    from == p ||
    (from < p && !Decode(t, m, target + from).Failed()
     && Boundary(t, m, target, from + Decode(t, m, target + from).len, p))
  }

  /** A boundary from entry k on is the place of an entry, or lies behind the last one. */
  lemma {:induction false} BoundaryPlace(t: Table, m: Mem, target: int, tramp: int, p: Plan, k: int, q: int) returns (j: int)
    requires PlanOk(t, m, target, tramp, p) && 0 <= k < |p.entries|
    requires Boundary(t, m, target, p.entries[k].src, q)
    ensures k <= j <= |p.entries|
    ensures if j < |p.entries| then p.entries[j].src == q else q >= p.oldEnd
    decreases |p.entries| - k
  {
    hide Decode, Emitted, Classify;
    var es := p.entries;
    assert EntryOk(t, m, target, tramp, es[k]);
    Adjacent(es, p.oldEnd, p.newEnd, k);
    if es[k].src == q {
      j := k;
    } else if k + 1 < |es| {
      j := BoundaryPlace(t, m, target, tramp, p, k + 1, q);
    } else {
      BoundaryNotBefore(t, m, target, p.oldEnd, q);
      j := |es|;
    }
  }

  lemma BoundaryNotBefore(t: Table, m: Mem, target: int, from: int, q: int)
    requires Boundary(t, m, target, from, q)
    ensures from <= q
  {
  }

  // ---------------------------------------------------------------------
  // Branches into the patched bytes
  // ---------------------------------------------------------------------

  /** A RIP-relative JMP or any FF /r is at least six bytes long. */
  lemma RipLength(t: Table, m: Mem, a: int)
    requires Consistent(t) && !Decode(t, m, a).Failed() && RipOperand(Decode(t, m, a))
    ensures Decode(t, m, a).len >= 6
  {
    hide Decode;
    LengthDecomposition(t, m, a);
    DispPlaceFlag(t, m, a);
  }

  lemma DispPlaceFlag(t: Table, m: Mem, a: int)
    requires RipForm(Decode(t, m, a))
    ensures Decode(t, m, a).flags.modrm
  {
    hide ScanPrefixes, ReadHead, Attribute, ImmediateWidths, ReadImmediate, BadOperand, BadLock, BadModRmOpcode, Load;
  }

  /** Every destination on an instruction boundary has been emitted when the loop ends, also when it ended at a
      RIP-relative JMP without looking at pending branches. */
  lemma DestinationEmitted(t: Table, m: Mem, target: int, tramp: int, p: Plan, i: int) returns (j: int)
    requires Consistent(t) && PlanOk(t, m, target, tramp, p)
    requires 0 <= i < |p.entries| && p.entries[i].kind.Inside?
    requires Boundary(t, m, target, 0, p.entries[i].kind.dest - target)
    requires forall k :: 0 <= k < |p.entries| && p.entries[k].kind.RipRelative? ==> RipOperand(p.entries[k].inst)
    ensures 0 <= j < |p.entries| && p.entries[j].src == p.entries[i].kind.dest - target
  {
    hide PlanOk, EntryOk, Boundary;
    var q := p.entries[i].kind.dest - target;
    InsideBounds(t, m, target, tramp, p, i);
    FirstEntry(t, m, target, tramp, p);
    j := BoundaryPlace(t, m, target, tramp, p, 0, q);
    if j == |p.entries| {
      EndsBehind(t, m, target, tramp, p);
      assert false;
    }
  }

  lemma FirstEntry(t: Table, m: Mem, target: int, tramp: int, p: Plan)
    requires PlanOk(t, m, target, tramp, p)
    ensures |p.entries| >= 1 && p.entries[0].src == 0
  {
    hide EntryOk, Finishes;
    Adjacent(p.entries, p.oldEnd, p.newEnd, 0);
  }

  /** A copied branch goes into the first five bytes, and no further than jmpDest. */
  lemma InsideBounds(t: Table, m: Mem, target: int, tramp: int, p: Plan, i: int)
    requires PlanOk(t, m, target, tramp, p) && 0 <= i < |p.entries| && p.entries[i].kind.Inside?
    ensures InPatch(target, p.entries[i].kind.dest) && p.entries[i].kind.dest <= p.jmpDest
  {
    hide Decode, Emitted, Finishes;
    assert EntryOk(t, m, target, tramp, p.entries[i]);
  }

  /** When the loop ends, it has passed the five bytes or every pending destination. */
  lemma EndsBehind(t: Table, m: Mem, target: int, tramp: int, p: Plan)
    requires Consistent(t) && PlanOk(t, m, target, tramp, p)
    requires forall k :: 0 <= k < |p.entries| && p.entries[k].kind.RipRelative? ==> RipOperand(p.entries[k].inst)
    ensures p.oldEnd >= JMP_REL_SIZE || target + p.oldEnd > p.jmpDest
  {
    hide Decode, Emitted;
    var n := |p.entries| - 1;
    var last := p.entries[n];
    Adjacent(p.entries, p.oldEnd, p.newEnd, n);
    assert EntryOk(t, m, target, tramp, last);
    if last.kind.RipRelative? {
      RipLength(t, m, target + last.src);
    }
  }

  /** The guard on changed lengths keeps the distance of every forward branch. */
  lemma ForwardDistance(t: Table, m: Mem, target: int, tramp: int, p: Plan, i: int, j: int)
    requires PlanOk(t, m, target, tramp, p) && 0 <= i < j < |p.entries|
    requires p.entries[i].kind.Inside? && p.entries[j].src == p.entries[i].kind.dest - target
    ensures p.entries[j].dst - p.entries[i].dst == p.entries[j].src - p.entries[i].src
  {
    hide Decode, Emitted, Classify;
    var es := p.entries;
    forall k | 0 <= k < |es|
      ensures es[k].inst.len >= 1
    {
      assert EntryOk(t, m, target, tramp, es[k]);
    }
    forall k | i <= k < j
      ensures |es[k].bytes| == es[k].inst.len
    {
      SourceIncreasing(es, p.oldEnd, p.newEnd, k, j);
      assert SpanKept(es, target, i, k);
    }
    SpanDistance(es, p.oldEnd, p.newEnd, i, j);
  }

  /** Relocation never shortens what a backward branch jumps over, so the distance is kept exactly when no
      instruction in between was lengthened. */
  lemma {:induction false} BackwardDistance(t: Table, m: Mem, target: int, tramp: int, p: Plan, j: int, i: int)
    requires Consistent(t) && PlanOk(t, m, target, tramp, p) && 0 <= j <= i < |p.entries|
    requires p.entries[i].src < JMP_REL_SIZE
    ensures p.entries[i].dst - p.entries[j].dst >= p.entries[i].src - p.entries[j].src
    ensures p.entries[i].dst - p.entries[j].dst == p.entries[i].src - p.entries[j].src
            <==> forall k :: j <= k < i ==> |p.entries[k].bytes| == p.entries[k].inst.len
    decreases i - j
  {
    hide PlanOk, Consistent;
    if j < i {
      EntryBefore(t, m, target, tramp, p, i);
      BackwardDistance(t, m, target, tramp, p, j, i - 1);
    }
  }

  lemma EntryBefore(t: Table, m: Mem, target: int, tramp: int, p: Plan, i: int)
    requires PlanOk(t, m, target, tramp, p) && 0 < i < |p.entries| && p.entries[i].src < JMP_REL_SIZE
    ensures var e := p.entries[i - 1];
            && e.src < p.entries[i].src == e.src + e.inst.len && p.entries[i].dst == e.dst + |e.bytes| && |e.bytes| >= e.inst.len
  {
    hide Decode, Emitted, Classify, Finishes;
    Adjacent(p.entries, p.oldEnd, p.newEnd, i - 1);
    assert EntryOk(t, m, target, tramp, p.entries[i - 1]);
    NeverShorter(t, m, target, tramp, p.entries[i - 1]);
  }

  lemma NeverShorter(t: Table, m: Mem, target: int, tramp: int, e: Entry)
    requires EntryOk(t, m, target, tramp, e) && e.inst.len <= 14
    ensures |e.bytes| >= e.inst.len
  {
    hide Decode;
  }
}
