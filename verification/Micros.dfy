/** Operations on JSON trees, as components and as the micro steps they stand for. */
module Micros {
  import opened Views

  type Key = string

  /** One step: into the current position, to a key, out, or any other component unchanged. */
  datatype Micro = In | Skip(p: Key) | Out | Edit(e: string)

  datatype Component = Into(ps: seq<Key>) | OutOf(n: int) | At(p: Key) | Does(e: string)

  // ---------- components to micros ----------

  function Ins(ps: seq<Key>): seq<Micro> {
    if ps == [] then [] else [In, Skip(ps[0])] + Ins(ps[1..])
  }

  function Outs(n: nat): seq<Micro> {
    if n == 0 then [] else [Out] + Outs(n - 1)
  }

  /** A negative count makes the counting loop run downwards just as often. */
  function MicrosOf(c: Component): seq<Micro> {
    match c
    case Into(ps) => Ins(ps)
    case OutOf(n) => Outs(if n < 0 then -n else n)
    case At(p) => [Skip(p)]
    case Does(e) => [Edit(e)]
  }

  function Micros(op: seq<Component>): seq<Micro> {
    if op == [] then [] else Micros(op[..|op| - 1]) + MicrosOf(op[|op| - 1])
  }

  method ToMicros(op: seq<Component>) returns (newOp: seq<Micro>)
    ensures newOp == Micros(op)
  {
    newOp := [];
    for i := 0 to |op|
      invariant newOp == Micros(op[..i])
    {
      assert op[..i + 1][..i] == op[..i];
      ghost var start := newOp;
      match op[i] {
        case Into(ps) =>
          assert start + Ins(ps[0..]) == start + Ins(ps) by { assert ps[0..] == ps; }
          for j := 0 to |ps|
            invariant newOp + Ins(ps[j..]) == start + Ins(ps)
          {
            assert ps[j..][1..] == ps[j + 1..];
            assert newOp + ([In, Skip(ps[j])] + Ins(ps[j + 1..])) == newOp + [In] + [Skip(ps[j])] + Ins(ps[j + 1..]);
            newOp := newOp + [In];
            newOp := newOp + [Skip(ps[j])];
          }
          assert newOp + Ins(ps[|ps|..]) == newOp;
        case OutOf(n) =>
          var count := if n < 0 then -n else n;
          for k := 0 to count
            invariant newOp + Outs(count - k) == start + Outs(count)
          {
            assert newOp + ([Out] + Outs(count - k - 1)) == newOp + [Out] + Outs(count - k - 1);
            newOp := newOp + [Out];
          }
          assert newOp + Outs(0) == newOp;
        case At(p) => newOp := newOp + [Skip(p)];
        case Does(e) => newOp := newOp + [Edit(e)];
      }
    }
    assert op[..|op|] == op;
  }

  // ---------- micros to components ----------

  function Last(op: seq<Component>): Option<Component> {
    if op == [] then None else Some(op[|op| - 1])
  }

  function ReplaceLast(op: seq<Component>, c: Component): seq<Component>
    requires op != []
  {
    op[..|op| - 1] + [c]
  }

  /** One unit: a step 'in' together with the skip that follows it, or any other single step. */
  function Push(op: seq<Component>, m: Micro, skip: Option<Key>): (r: seq<Component>) {
    var last := Last(op);
    match m
    case In =>
      if skip.None? then op + [Into([])]
      else if last.Some? && last.value.Into? then ReplaceLast(op, Into(last.value.ps + [skip.value]))
      else op + [Into([skip.value])]
    case Skip(p) => if last == Some(Into([])) then ReplaceLast(op, Into([p])) else op + [At(p)]
    case Out => if last.Some? && last.value.OutOf? then ReplaceLast(op, OutOf(last.value.n + 1)) else op + [OutOf(1)]
    case Edit(e) => op + [Does(e)]
  }

  /** Looking past a final 'in' for its skip raises an exception: None. */
  function Append(op: seq<Component>, micros: seq<Micro>): Option<seq<Component>>
    decreases |micros|
  {
    if micros == [] then Some(op)
    else if micros[0] != In then Append(Push(op, micros[0], None), micros[1..])
    else if |micros| == 1 then None
    else if micros[1].Skip? then Append(Push(op, In, Some(micros[1].p)), micros[2..])
    else Append(Push(op, In, None), micros[1..])
  }

  /** The inner loop: a run of in/skip pairs, collected before anything is pushed. */
  method CollectRun(micros: seq<Micro>, i0: nat, ghost op: seq<Component>) returns (r: Option<seq<Key>>, i: nat)
    requires i0 < |micros| && micros[i0] == In
    ensures i0 <= i <= |micros|
    ensures r.None? ==> Append(op, micros[i0..]) == None
    ensures r.Some? ==>
      && (r.value == [] <==> i == i0)
      && (r.value == [] ==> i0 + 1 < |micros| && !micros[i0 + 1].Skip?)
      && Append(op, micros[i0..]) == Append(PushRun(op, r.value), micros[i..])
  {
    var inRun: seq<Key> := [];
    i := i0;
    while i < |micros| && micros[i] == In
      invariant i0 <= i <= |micros|
      invariant (inRun == [] <==> i == i0)
      invariant Append(op, micros[i0..]) == Append(PushRun(op, inRun), micros[i..])
    {
      if i + 1 == |micros| {
        return None, i;
      }
      if !micros[i + 1].Skip? {
        break;
      }
      PushRunMore(op, inRun, micros[i + 1].p);
      assert micros[i..][2..] == micros[i + 2..];
      inRun := inRun + [micros[i + 1].p];
      i := i + 2;
    }
    r := Some(inRun);
  }

  /** What a whole run pushes, pair by pair. */
  function PushRun(op: seq<Component>, run: seq<Key>): seq<Component> {
    if run == [] then op else Push(PushRun(op, run[..|run| - 1]), In, Some(run[|run| - 1]))
  }

  lemma PushRunMore(op: seq<Component>, run: seq<Key>, p: Key)
    ensures PushRun(op, run + [p]) == Push(PushRun(op, run), In, Some(p))
  {
    assert (run + [p])[..|run|] == run;
  }

  /** All at once: the run goes to the end of a last 'in' component, or becomes a component of its own. */
  lemma {:induction false} PushRunAtOnce(op: seq<Component>, run: seq<Key>)
    requires run != []
    ensures PushRun(op, run) ==
      if Last(op).Some? && Last(op).value.Into? then ReplaceLast(op, Into(Last(op).value.ps + run))
      else op + [Into(run)]
    decreases |run|
  {
    var before, p := run[..|run| - 1], run[|run| - 1];
    assert PushRun(op, run) == Push(PushRun(op, before), In, Some(p));
    assert before + [p] == run;
    hide Push;
    if before == [] {
      PushFirst(op, p);
    } else {
      PushRunAtOnce(op, before);
      if Last(op).Some? && Last(op).value.Into? {
        var front, ps := op[..|op| - 1], Last(op).value.ps;
        PushNext(front, ps + before, p);
        assert ps + before + [p] == ps + run;
      } else {
        PushNext(op, before, p);
      }
    }
  }

  lemma PushFirst(op: seq<Component>, p: Key)
    ensures PushRun(op, []) == op
    ensures Push(op, In, Some(p)) ==
      if Last(op).Some? && Last(op).value.Into? then ReplaceLast(op, Into(Last(op).value.ps + [p]))
      else op + [Into([p])]
  {
  }

  lemma PushNext(front: seq<Component>, ps: seq<Key>, p: Key)
    ensures Push(front + [Into(ps)], In, Some(p)) == front + [Into(ps + [p])]
  {
    assert (front + [Into(ps)])[..|front|] == front;
  }

  method AppendMicros(op0: seq<Component>, micros: seq<Micro>) returns (r: Option<seq<Component>>)
    ensures r == Append(op0, micros)
  {
    var op, i := op0, 0;
    while i < |micros|
      invariant 0 <= i <= |micros|
      invariant Append(op0, micros) == Append(op, micros[i..])
      decreases |micros| - i
    {
      var m := micros[i];
      var last := Last(op);
      assert micros[i..][1..] == micros[i + 1..];
      match m {
        case In =>
          var run, next := CollectRun(micros, i, op);
          if run.None? {
            return None;
          }
          if run.value != [] {
            PushRunAtOnce(op, run.value);
            if last.Some? && last.value.Into? {
              op := ReplaceLast(op, Into(last.value.ps + run.value));
            } else {
              op := op + [Into(run.value)];
            }
            i := next;
            continue;
          }
          op := op + [Into([])];
        case Skip(p) =>
          if last == Some(Into([])) {
            op := ReplaceLast(op, Into([p]));
          } else {
            op := op + [At(p)];
          }
        case Out =>
          if last.Some? && last.value.OutOf? {
            op := ReplaceLast(op, OutOf(last.value.n + 1));
          } else {
            op := op + [OutOf(1)];
          }
        case Edit(e) =>
          op := op + [Does(e)];
      }
      i := i + 1;
    }
    r := Some(op);
  }

  // ---------- the two directions undo each other ----------

  /** Every 'in' is directly followed by a skip. */
  predicate InsSkip(micros: seq<Micro>) {
    forall i :: 0 <= i < |micros| && micros[i] == In ==> i + 1 < |micros| && micros[i + 1].Skip?
  }

  /** What the components made from such micros look like: runs are not empty and merged, counts positive. */
  predicate NormalForm(op: seq<Component>) {
    && (forall i :: 0 <= i < |op| ==> (op[i].Into? ==> op[i].ps != []) && (op[i].OutOf? ==> op[i].n > 0))
    && (forall i :: 0 <= i < |op| - 1 ==> !(op[i].Into? && op[i + 1].Into?) && !(op[i].OutOf? && op[i + 1].OutOf?))
  }

  lemma {:induction false} InsAppend(ps: seq<Key>, p: Key)
    ensures Ins(ps + [p]) == Ins(ps) + [In, Skip(p)]
  {
    if ps != [] {
      assert (ps + [p])[1..] == ps[1..] + [p];
      InsAppend(ps[1..], p);
    }
  }

  lemma {:induction false} OutsAppend(n: nat)
    ensures Outs(n + 1) == Outs(n) + [Out]
  {
    if n > 0 { OutsAppend(n - 1); }
  }

  lemma MicrosSnoc(op: seq<Component>, c: Component)
    ensures Micros(op + [c]) == Micros(op) + MicrosOf(c)
  {
    assert (op + [c])[..|op|] == op;
  }

  lemma FirstSteps(p: Key)
    ensures Ins([p]) == [In, Skip(p)] && Outs(1) == [Out]
  {
    assert Ins([p]) == [In, Skip(p)] + Ins([]);
    assert Outs(1) == [Out] + Outs(0);
  }

  /** Pushing a unit adds exactly its steps and keeps the normal form. */
  lemma PushAdds(op: seq<Component>, m: Micro, skip: Option<Key>)
    requires NormalForm(op) && (m == In <==> skip.Some?)
    ensures NormalForm(Push(op, m, skip))
    ensures Micros(Push(op, m, skip)) == Micros(op) + (if m == In then [In, Skip(skip.value)] else [m])
  {
    PushAddsMicros(op, m, skip);
    PushKeepsNormal(op, m, skip);
    hide Micros, Push, NormalForm;
  }

  lemma PushKeepsNormal(op: seq<Component>, m: Micro, skip: Option<Key>)
    requires NormalForm(op) && (m == In <==> skip.Some?)
    ensures NormalForm(Push(op, m, skip))
  {
    hide NormalForm;
    if op == [] {
      NormalStarts();
      match m {
        case In => NormalSnoc(op, Into([skip.value]));
        case Skip(p) => NormalSnoc(op, At(p));
        case Out => NormalSnoc(op, OutOf(1));
        case Edit(e) => NormalSnoc(op, Does(e));
      }
    } else {
      var front, last := op[..|op| - 1], op[|op| - 1];
      assert op == front + [last];
      NormalFront(front, last);
      match m {
        case In =>
          if last.Into? {
            NormalSnoc(front, Into(last.ps + [skip.value]));
          } else {
            NormalSnoc(op, Into([skip.value]));
          }
        case Skip(p) => NormalSnoc(op, At(p));
        case Out =>
          if last.OutOf? { NormalSnoc(front, OutOf(last.n + 1)); } else { NormalSnoc(op, OutOf(1)); }
        case Edit(e) => NormalSnoc(op, Does(e));
      }
    }
  }

  lemma NormalStarts()
    ensures NormalForm([])
  {
  }

  /** The component may stand after the others in normal form. */
  ghost predicate Follows(op: seq<Component>, c: Component) {
    && (c.Into? ==> c.ps != []) && (c.OutOf? ==> c.n > 0)
    && (op != [] ==> !(op[|op| - 1].Into? && c.Into?) && !(op[|op| - 1].OutOf? && c.OutOf?))
  }

  lemma NormalFront(op: seq<Component>, c: Component)
    requires NormalForm(op + [c])
    ensures NormalForm(op) && Follows(op, c)
  {
    var all := op + [c];
    assert forall i :: 0 <= i < |op| ==> all[i] == op[i];
    assert all[|op|] == c;
  }

  lemma NormalSnoc(op: seq<Component>, c: Component)
    requires NormalForm(op) && Follows(op, c)
    ensures NormalForm(op + [c])
  {
  }

  lemma PushAddsMicros(op: seq<Component>, m: Micro, skip: Option<Key>)
    requires NormalForm(op) && (m == In <==> skip.Some?)
    ensures Micros(Push(op, m, skip)) == Micros(op) + (if m == In then [In, Skip(skip.value)] else [m])
  {
    hide Micros, Ins, Outs;
    FirstSteps(if skip.Some? then skip.value else "");
    if op != [] {
      var front, last := op[..|op| - 1], op[|op| - 1];
      assert op == front + [last];
      MicrosSnoc(front, last);
      match m {
        case In =>
          if last.Into? {
            InsAppend(last.ps, skip.value);
            MicrosSnoc(front, Into(last.ps + [skip.value]));
          } else {
            MicrosSnoc(op, Into([skip.value]));
          }
        case Skip(p) => MicrosSnoc(op, At(p));
        case Out =>
          if last.OutOf? {
            OutsAppend(last.n);
            MicrosSnoc(front, OutOf(last.n + 1));
          } else {
            MicrosSnoc(op, OutOf(1));
          }
        case Edit(e) => MicrosSnoc(op, Does(e));
      }
    } else {
      match m {
        case In => MicrosSnoc(op, Into([skip.value]));
        case Skip(p) => MicrosSnoc(op, At(p));
        case Out => MicrosSnoc(op, OutOf(1));
        case Edit(e) => MicrosSnoc(op, Does(e));
      }
    }
  }

  lemma InsSkipTail(micros: seq<Micro>)
    requires InsSkip(micros) && micros != []
    ensures if micros[0] == In then |micros| > 1 && micros[1].Skip? && InsSkip(micros[2..]) else InsSkip(micros[1..])
  {
    var n := if micros[0] == In then 2 else 1;
    assert n <= |micros|;
    assert forall i :: 0 <= i < |micros| - n ==> micros[n..][i] == micros[i + n];
  }

  /** Appending micros to a normal operation appends exactly those micros. */
  lemma {:induction false} AppendAdds(op: seq<Component>, micros: seq<Micro>)
    requires NormalForm(op) && InsSkip(micros)
    ensures var r := Append(op, micros); r.Some? && NormalForm(r.value) && Micros(r.value) == Micros(op) + micros
    decreases |micros|
  {
    hide Push, NormalForm, Micros, InsSkip;
    if micros != [] {
      InsSkipTail(micros);
      if micros[0] != In {
        PushAdds(op, micros[0], None);
        AppendAdds(Push(op, micros[0], None), micros[1..]);
        assert micros == [micros[0]] + micros[1..];
      } else {
        PushAdds(op, In, Some(micros[1].p));
        AppendAdds(Push(op, In, Some(micros[1].p)), micros[2..]);
        assert micros == [In, Skip(micros[1].p)] + micros[2..];
      }
    }
  }

  lemma {:induction false} MicrosInsSkip(op: seq<Component>)
    ensures InsSkip(Micros(op))
  {
    if op != [] {
      MicrosInsSkip(op[..|op| - 1]);
      PieceInsSkip(op[|op| - 1]);
    }
  }

  lemma PieceInsSkip(c: Component)
    ensures InsSkip(MicrosOf(c))
  {
    match c {
      case Into(ps) => InsInsSkip(ps);
      case OutOf(n) => OutsInsSkip(if n < 0 then -n else n);
      case _ =>
    }
  }

  lemma {:induction false} InsInsSkip(ps: seq<Key>)
    ensures InsSkip(Ins(ps))
  {
    if ps != [] { InsInsSkip(ps[1..]); }
  }

  lemma {:induction false} OutsInsSkip(n: nat)
    ensures InsSkip(Outs(n))
  {
    if n > 0 { OutsInsSkip(n - 1); }
  }

  /** fromMicros, then toMicros: the micros come back exactly if each 'in' is directly followed by a skip. */
  lemma MicrosRoundTrip(micros: seq<Micro>)
    ensures (Append([], micros).Some? && Micros(Append([], micros).value) == micros) <==> InsSkip(micros)
  {
    if InsSkip(micros) {
      AppendAdds([], micros);
      assert Micros([]) + micros == micros;
    } else if Append([], micros).Some? {
      MicrosInsSkip(Append([], micros).value);
    }
  }

  /** Appending to a result is making components from all micros together. */
  lemma {:induction false} AppendContinues(op: seq<Component>, a: seq<Micro>, b: seq<Micro>)
    requires InsSkip(a)
    ensures Append(op, a).Some? ==> Append(Append(op, a).value, b) == Append(op, a + b)
    decreases |a|
  {
    if a == [] {
      assert a + b == b;
    } else if a[0] != In {
      assert (a + b)[1..] == a[1..] + b;
      AppendContinues(Push(op, a[0], None), a[1..], b);
    } else {
      assert (a + b)[2..] == a[2..] + b;
      AppendContinues(Push(op, In, Some(a[1].p)), a[2..], b);
    }
  }

  // ---------- toMicros, then fromMicros ----------

  lemma {:induction false} AppendIns(op: seq<Component>, ps: seq<Key>)
    ensures Append(op, Ins(ps)) == Some(PushAll(op, ps))
    decreases |ps|
  {
    if ps != [] {
      assert Ins(ps)[2..] == Ins(ps[1..]);
      AppendIns(Push(op, In, Some(ps[0])), ps[1..]);
    }
  }

  function PushAll(op: seq<Component>, ps: seq<Key>): seq<Component>
    decreases |ps|
  {
    if ps == [] then op else PushAll(Push(op, In, Some(ps[0])), ps[1..])
  }

  lemma {:induction false} PushAllInto(op: seq<Component>, qs: seq<Key>, ps: seq<Key>)
    ensures PushAll(op + [Into(qs)], ps) == op + [Into(qs + ps)]
    decreases |ps|
  {
    if ps == [] {
      assert qs + ps == qs;
    } else {
      var op1 := op + [Into(qs)];
      assert op1[..|op1| - 1] == op;
      assert Push(op1, In, Some(ps[0])) == op + [Into(qs + [ps[0]])];
      PushAllInto(op, qs + [ps[0]], ps[1..]);
      assert qs + [ps[0]] + ps[1..] == qs + ps;
    }
  }

  lemma {:induction false} AppendOuts(op: seq<Component>, m: nat, n: nat)
    requires m > 0
    ensures Append(op + [OutOf(m)], Outs(n)) == Some(op + [OutOf(m + n)])
    decreases n
  {
    if n > 0 {
      var op1 := op + [OutOf(m)];
      assert op1[..|op1| - 1] == op;
      assert Outs(n)[1..] == Outs(n - 1);
      AppendOuts(op, m + 1, n - 1);
    }
  }

  /** The steps of one component, appended where it does not merge with the last one, give it back. */
  lemma AppendPiece(op: seq<Component>, c: Component)
    requires NormalForm(op + [c])
    ensures Append(op, MicrosOf(c)) == Some(op + [c])
  {
    NormalFront(op, c);
    hide NormalForm;
    match c {
      case Into(ps) => AppendRun(op, ps);
      case OutOf(n) => AppendOutRun(op, n);
      case At(p) => AppendSingle(op, Skip(p));
      case Does(e) => AppendSingle(op, Edit(e));
    }
  }

  lemma AppendSingle(op: seq<Component>, m: Micro)
    requires (m.Skip? || m.Edit?) && Last(op) != Some(Into([]))
    ensures Append(op, [m]) == Some(op + [if m.Skip? then At(m.p) else Does(m.e)])
  {
    assert [m][1..] == [];
  }

  lemma AppendRun(op: seq<Component>, ps: seq<Key>)
    requires ps != [] && Follows(op, Into(ps))
    ensures Append(op, Ins(ps)) == Some(op + [Into(ps)])
  {
    hide Append;
    AppendIns(op, ps);
    PushAllInto(op, [ps[0]], ps[1..]);
    assert [ps[0]] + ps[1..] == ps;
  }

  lemma AppendOutRun(op: seq<Component>, n: int)
    requires n > 0 && Follows(op, OutOf(n))
    ensures Append(op, Outs(n)) == Some(op + [OutOf(n)])
  {
    assert Outs(n)[1..] == Outs(n - 1);
    AppendOuts(op, 1, n - 1);
  }

  /** toMicros, then fromMicros: the operation comes back exactly if it is in normal form. */
  lemma {:induction false} NormalRoundTrip(op: seq<Component>)
    ensures Append([], Micros(op)) == Some(op) <==> NormalForm(op)
    decreases |op|
  {
    if NormalForm(op) {
      if op != [] {
        var before, c := op[..|op| - 1], op[|op| - 1];
        NormalRoundTrip(before);
        MicrosInsSkip(before);
        AppendContinues([], Micros(before), MicrosOf(c));
        assert op == before + [c];
        AppendPiece(before, c);
      }
    } else {
      MicrosInsSkip(op);
      AppendAdds([], Micros(op));
    }
  }
}
