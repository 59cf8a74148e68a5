/** Whole runs of Enable and Disable on any number of hooks: when every hook is disabled again, the code is as it was. */
module Restoration {
  import opened Words

  /** A patch in force, of hook `id`: patchedPos_, patchedSize_ and backup_. */
  datatype Patch = Patch(id: int, pos: int, backup: seq<byte>)
  {
    predicate Covers(x: int) {
      pos <= x < pos + |backup|
    }
  }

  /** The code bytes and the patches in force, oldest first. */
  datatype CodeState = CodeState(mem: Mem, active: seq<Patch>)

  predicate Overlap(p: Patch, q: Patch)
  {
    p.pos < q.pos + |q.backup| && q.pos < p.pos + |p.backup|
  }

  /** Patches overlap where they cover a byte in common. */
  lemma OverlapIff(p: Patch, q: Patch)
    requires p.backup != [] && q.backup != []
    ensures Overlap(p, q) <==> exists x :: p.Covers(x) && q.Covers(x)
  {
    if Overlap(p, q) {
      var x := if p.pos < q.pos then q.pos else p.pos;
      assert p.Covers(x) && q.Covers(x);
    }
  }

  ghost predicate SameBytes(m: Mem, m': Mem, code: iset<int>)
  {
    forall x {:trigger m'(x)} :: x in code ==> m'(x) == m(x)
  }

  /** Enable of hook id, not in force: backs up and overwrites a window. */
  ghost predicate EnableStep(code: iset<int>, s: CodeState, id: int, pos: int, bytes: seq<byte>, s': CodeState)
  {
    && (forall k :: 0 <= k < |s.active| ==> s.active[k].id != id)
    && s'.active == s.active + [Patch(id, pos, Read(s.mem, pos, |bytes|))]
    && SameBytes(Write(s.mem, pos, bytes), s'.mem, code)
  }

  /** Enable of a hook that fails. */
  ghost predicate FailStep(code: iset<int>, s: CodeState, s': CodeState)
  {
    s'.active == s.active && SameBytes(s.mem, s'.mem, code)
  }

  /** Disable of the i-th patch, where no later patch overlaps it. */
  ghost predicate DisableStep(code: iset<int>, s: CodeState, i: int, s': CodeState)
  {
    && 0 <= i < |s.active|
    && (forall k :: i < k < |s.active| ==> !Overlap(s.active[i], s.active[k]))
    && s'.active == Without(s.active, i)
    && SameBytes(Write(s.mem, s.active[i].pos, s.active[i].backup), s'.mem, code)
  }

  ghost predicate CodeStep(code: iset<int>, s: CodeState, s': CodeState)
  {
    || FailStep(code, s, s')
    || (exists id, pos, bytes :: EnableStep(code, s, id, pos, bytes, s'))
    || (exists i :: DisableStep(code, s, i, s'))
  }

  ghost predicate CodeRun(code: iset<int>, ss: seq<CodeState>)
  {
    ss != [] && forall k :: 0 <= k < |ss| - 1 ==> CodeStep(code, ss[k], ss[k + 1])
  }

  /** Writing the backups back, newest first. */
  function Unwind(m: Mem, ps: seq<Patch>): Mem
  {
    if ps == [] then m
    else
      var p := ps[|ps| - 1];
      Unwind(Write(m, p.pos, p.backup), ps[..|ps| - 1])
  }

  lemma {:induction false} UnwindCongruent(code: iset<int>, m: Mem, m': Mem, ps: seq<Patch>)
    requires SameBytes(m, m', code)
    ensures SameBytes(Unwind(m, ps), Unwind(m', ps), code)
  {
    if ps != [] {
      var p := ps[|ps| - 1];
      UnwindCongruent(code, Write(m, p.pos, p.backup), Write(m', p.pos, p.backup), ps[..|ps| - 1]);
    }
  }

  /** A backup that no later patch overlaps may be written back at once. */
  lemma {:induction false} UnwindAhead(code: iset<int>, m: Mem, ps: seq<Patch>, i: int)
    requires 0 <= i < |ps| && forall k :: i < k < |ps| ==> !Overlap(ps[i], ps[k])
    ensures SameBytes(Unwind(m, ps), Unwind(Write(m, ps[i].pos, ps[i].backup), Without(ps, i)), code)
    decreases |ps|
  {
    var n := |ps| - 1;
    var p, q := ps[i], ps[n];
    if i == n {
      assert Without(ps, i) == ps[..n];
      UnwindCongruent(code, Write(m, p.pos, p.backup), Write(m, p.pos, p.backup), ps[..n]);
    } else {
      var rest := Without(ps, i);
      assert rest[|rest| - 1] == q && rest[..|rest| - 1] == Without(ps[..n], i);
      var a := Write(Write(m, q.pos, q.backup), p.pos, p.backup);
      var b := Write(Write(m, p.pos, p.backup), q.pos, q.backup);
      assert SameBytes(a, b, code);
      UnwindAhead(code, Write(m, q.pos, q.backup), ps[..n], i);
      UnwindCongruent(code, a, b, Without(ps[..n], i));
    }
  }

  /** Each step keeps what unwinding all patches in force would give. */
  lemma StepKeepsOriginal(code: iset<int>, s: CodeState, s': CodeState)
    requires CodeStep(code, s, s')
    ensures SameBytes(Unwind(s.mem, s.active), Unwind(s'.mem, s'.active), code)
  {
    if FailStep(code, s, s') {
      UnwindCongruent(code, s.mem, s'.mem, s.active);
    } else if id, pos, bytes :| EnableStep(code, s, id, pos, bytes, s') {
      var backup := Read(s.mem, pos, |bytes|);
      var back := Write(s'.mem, pos, backup);
      forall x {:trigger back(x)} | x in code
        ensures back(x) == s.mem(x)
      {
        if pos <= x < pos + |bytes| {
          assert backup[x - pos] == s.mem(pos + (x - pos));
        }
      }
      assert s'.active[..|s'.active| - 1] == s.active;
      UnwindCongruent(code, s.mem, back, s.active);
    } else {
      var i :| DisableStep(code, s, i, s');
      UnwindAhead(code, s.mem, s.active, i);
      UnwindCongruent(code, Write(s.mem, s.active[i].pos, s.active[i].backup), s'.mem, s'.active);
    }
  }

  lemma {:induction false} RunKeepsOriginal(code: iset<int>, ss: seq<CodeState>, k: int)
    requires CodeRun(code, ss) && 0 <= k < |ss|
    ensures SameBytes(Unwind(ss[0].mem, ss[0].active), Unwind(ss[k].mem, ss[k].active), code)
  {
    if k > 0 {
      RunKeepsOriginal(code, ss, k - 1);
      StepKeepsOriginal(code, ss[k - 1], ss[k]);
    }
  }

  /** After any run that starts and ends without hooks in force every code byte is what it was. */
  lemma AllDisabledRestores(code: iset<int>, ss: seq<CodeState>, x: int)
    requires CodeRun(code, ss) && ss[0].active == [] && ss[|ss| - 1].active == []
    requires x in code
    ensures ss[|ss| - 1].mem(x) == ss[0].mem(x)
  {
    RunKeepsOriginal(code, ss, |ss| - 1);
  }

  lemma {:induction false} UnwindOutside(m: Mem, ps: seq<Patch>, x: int)
    requires forall k :: 0 <= k < |ps| ==> !ps[k].Covers(x)
    ensures Unwind(m, ps)(x) == m(x)
  {
    if ps != [] {
      var p := ps[|ps| - 1];
      assert !p.Covers(x);
      UnwindOutside(Write(m, p.pos, p.backup), ps[..|ps| - 1], x);
    }
  }

  /** At every moment the bytes that no patch in force covers are original. */
  lemma UncoveredIsOriginal(code: iset<int>, ss: seq<CodeState>, k: int, x: int)
    requires CodeRun(code, ss) && ss[0].active == [] && 0 <= k < |ss| && x in code
    requires forall j :: 0 <= j < |ss[k].active| ==> !ss[k].active[j].Covers(x)
    ensures ss[k].mem(x) == ss[0].mem(x)
  {
    RunKeepsOriginal(code, ss, k);
    UnwindOutside(ss[k].mem, ss[k].active, x);
  }
}
