/** A collection of models: a sequence, its length, and an index by id and by client id beside it. */
module Collection {
  import opened Views

  /** A model with its `id` attribute. Its client id is unique, so the object itself stands for it. */
  class Model {
    var id: Option<string>

    constructor (id: Option<string>)
      ensures this.id == id
    {
      this.id := id;
    }
  }

  datatype Key = Cid(model: Model) | Id(id: string)

  /** What callers pass: a model, or attributes from which one is made if they are valid. */
  datatype Input = Existing(model: Model) | Attrs(id: Option<string>, valid: bool)

  // ---------- sequences ----------

  predicate Distinct<T(==)>(s: seq<T>) {
    forall i, j :: 0 <= i < j < |s| ==> s[i] != s[j]
  }

  function Members<T>(s: seq<T>): set<T> {
    set x | x in s
  }

  /** The models among some results, in order. */
  function Somes<T>(s: seq<Option<T>>): (r: seq<T>)
    ensures forall x :: x in r ==> Some(x) in s
    ensures forall o :: o in s && o.Some? ==> o.value in r
  {
    if s == [] then []
    else
      assert s == s[..|s| - 1] + [s[|s| - 1]];
      Somes(s[..|s| - 1]) + (if s[|s| - 1].Some? then [s[|s| - 1].value] else [])
  }

  /** The elements outside `known`, each where it comes first. */
  function News<T(==)>(s: seq<T>, known: set<T>): (r: seq<T>)
    ensures forall x :: x in r ==> x in s && x !in known
    ensures forall x :: x in s && x !in known ==> x in r
    ensures Distinct(r)
  {
    if s == [] then []
    else
      var r, x := News(s[..|s| - 1], known), s[|s| - 1];
      assert s == s[..|s| - 1] + [x];
      if x in known || x in r then r else r + [x]
  }

  lemma NewsGrow<T>(results: seq<Option<T>>, known: set<T>, next: Option<T>)
    ensures Somes(results + [next]) == Somes(results) + (if next.Some? then [next.value] else [])
    ensures News(Somes(results + [next]), known) == News(Somes(results), known)
      + if next.Some? && next.value !in known && next.value !in News(Somes(results), known) then [next.value] else []
  {
    var all := results + [next];
    assert all[..|all| - 1] == results;
    if next.Some? {
      var some := Somes(results) + [next.value];
      assert some[..|some| - 1] == Somes(results);
      assert News(Somes(results), known) + [] == News(Somes(results), known);
    } else {
      assert Somes(results) + [] == Somes(results);
    }
  }

  function Without<T(==)>(s: seq<T>, gone: set<T>): (r: seq<T>)
    ensures forall x :: x in r ==> x in s && x !in gone
    ensures forall x :: x in s && x !in gone ==> x in r
    ensures Distinct(s) ==> Distinct(r)
  {
    if s == [] then []
    else
      var r, x := Without(s[..|s| - 1], gone), s[|s| - 1];
      assert s == s[..|s| - 1] + [x];
      if x in gone then r else r + [x]
  }

  /** `splice` at each next position from `at` on, which counts from the end if the sequence is shorter. */
  function Inserted<T>(s: seq<T>, at: nat, t: seq<T>): seq<T> {
    var k := if at <= |s| then at else |s|;
    s[..k] + t + s[k..]
  }

  /** What goes in stands together from `at` on, and nothing else moves against each other. */
  lemma InsertedAt<T>(s: seq<T>, at: nat, t: seq<T>, i: nat)
    requires i < |s| + |t|
    ensures |Inserted(s, at, t)| == |s| + |t|
    ensures
      var k := if at <= |s| then at else |s|;
      Inserted(s, at, t)[i] == if i < k then s[i] else if i < k + |t| then t[i - k] else s[i - |t|]
  {
  }

  /** New elements come in the order of their first places. */
  lemma {:induction false} NewsInOrder<T(!new)>(s: seq<T>, known: set<T>, i: nat) returns (p: nat)
    requires i < |News(s, known)|
    ensures p < |s| && s[p] == News(s, known)[i] && News(s[..p], known) == News(s, known)[..i]
  {
    var front, x := s[..|s| - 1], s[|s| - 1];
    var r := News(front, known);
    if i < |r| {
      p := NewsInOrder(front, known, i);
      assert s[..p] == front[..p] && News(s, known)[..i] == r[..i];
    } else {
      p := |s| - 1;
      assert News(s, known) == r + [x];
    }
  }

  lemma WithoutNone<T>(s: seq<T>)
    ensures Without(s, {}) == s
  {
    if s != [] {
      WithoutNone(s[..|s| - 1]);
      assert s == s[..|s| - 1] + [s[|s| - 1]];
    }
  }

  lemma WithoutTwice<T>(s: seq<T>, a: set<T>, b: set<T>)
    ensures Without(Without(s, a), b) == Without(s, a + b)
  {
    if s != [] {
      WithoutTwice(s[..|s| - 1], a, b);
      var r, x := Without(s[..|s| - 1], a), s[|s| - 1];
      if x !in a { assert (r + [x])[..|r + [x]| - 1] == r; }
    }
  }

  lemma WithoutUnrelated<T>(s: seq<T>, gone: set<T>)
    requires forall x :: x in s ==> x !in gone
    ensures Without(s, gone) == s
  {
    if s != [] {
      var x := s[|s| - 1];
      assert x in s;
      forall y | y in s[..|s| - 1] ensures y !in gone { assert y in s; }
      WithoutUnrelated(s[..|s| - 1], gone);
      assert s == s[..|s| - 1] + [x];
    }
  }

  lemma {:induction false} WithoutIsSplice<T>(s: seq<T>, index: nat)
    requires index < |s| && Distinct(s)
    ensures Without(s, {s[index]}) == s[..index] + s[index + 1..]
  {
    var front, x := s[..|s| - 1], s[|s| - 1];
    if index == |s| - 1 {
      WithoutUnrelated(front, {x});
      assert s[..index] + s[index + 1..] == front;
    } else {
      assert front[index] == s[index];
      WithoutIsSplice(front, index);
      assert s[..index] + s[index + 1..] == (front[..index] + front[index + 1..]) + [x];
    }
  }

  lemma {:induction false} DistinctSize<T>(s: seq<T>)
    ensures |Members(s)| <= |s|
    ensures |Members(s)| == |s| <==> Distinct(s)
  {
    if s != [] {
      var front, x := s[..|s| - 1], s[|s| - 1];
      DistinctSize(front);
      assert s == front + [x];
      assert Members(s) == Members(front) + {x};
      if x in front {
        assert Members(s) == Members(front);
        var i :| 0 <= i < |front| && front[i] == x;
        assert s[i] == s[|s| - 1];
      } else if Distinct(s) {
        assert forall i, j :: 0 <= i < j < |front| ==> front[i] == s[i] && front[j] == s[j];
      }
    }
  }

  /** Nothing is skipped if every result is there. */
  lemma {:induction false} AllInOrder<T>(s: seq<Option<T>>)
    requires forall i :: 0 <= i < |s| ==> s[i].Some?
    ensures |Somes(s)| == |s| && forall i :: 0 <= i < |s| ==> Somes(s)[i] == s[i].value
  {
    if s != [] {
      AllInOrder(s[..|s| - 1]);
      assert Somes(s) == Somes(s[..|s| - 1]) + [s[|s| - 1].value];
    }
  }

  // ---------- the index ----------

  function IdOf(input: Input): Option<string>
    reads if input.Existing? then {input.model} else {}
  {
    match input
    case Existing(m) => m.id
    case Attrs(id, _) => id
  }

  /** The input means this model: it is the model, or has its id. */
  predicate Matches(input: Input, m: Model)
    reads m, if input.Existing? then {input.model} else {}
  {
    || input == Existing(m)
    || (IdOf(input).Some? && IdOf(input) == m.id)
  }

  /** Every key leads to the member it names, and every member is found under its client id and its id. */
  ghost predicate Indexed(byId: map<Key, Model>, members: set<Model>)
    reads members
  {
    && (forall k :: k in byId ==> byId[k] in members)
    && (forall k :: k in byId ==> if k.Cid? then k.model == byId[k] else byId[k].id == Some(k.id))
    && (forall m :: m in members ==> Cid(m) in byId && byId[Cid(m)] == m)
    && (forall m :: m in members && m.id.Some? ==> Id(m.id.value) in byId && byId[Id(m.id.value)] == m)
  }

  /** The index of members with the given ids, whatever ids they have now. */
  predicate IndexedAs(byId: map<Key, Model>, ids: map<Model, Option<string>>) {
    && (forall k :: k in byId ==> byId[k] in ids)
    && (forall k :: k in byId ==> if k.Cid? then k.model == byId[k] else ids[byId[k]] == Some(k.id))
    && (forall m :: m in ids ==> Cid(m) in byId && byId[Cid(m)] == m)
    && (forall m :: m in ids && ids[m].Some? ==> Id(ids[m].value) in byId && byId[Id(ids[m].value)] == m)
  }

  lemma IndexedNow(byId: map<Key, Model>, members: set<Model>, ids: map<Model, Option<string>>)
    requires ids.Keys == members && forall m :: m in members ==> ids[m] == m.id
    ensures Indexed(byId, members) <==> IndexedAs(byId, ids)
  {
  }

  /** The index re-keyed for a member's new id: the entry moves, over that of any other member with the id. */
  function Rekeyed(byId: map<Key, Model>, m: Model, previous: Option<string>, id: Option<string>): map<Key, Model> {
    var cut := if previous.Some? then byId - {Id(previous.value)} else byId;
    if id.Some? then cut[Id(id.value) := m] else cut
  }

  ghost function IdsOf(members: set<Model>): (ids: map<Model, Option<string>>)
    reads members
    ensures ids.Keys == members && forall m :: m in members ==> ids[m] == m.id
  {
    map m | m in members :: m.id
  }

  lemma RekeyedAgrees(byId: map<Key, Model>, ids: map<Model, Option<string>>, m: Model, id: Option<string>)
    requires IndexedAs(byId, ids) && m in ids && ids[m] != id
    ensures
      IndexedAs(Rekeyed(byId, m, ids[m], id), ids[m := id])
      <==> id.None? || forall n :: n in ids && ids[n] == id ==> n == m
  {
    if n :| n in ids && ids[n] == id && id.Some? && n != m {
      assert ids[m := id][n] == id;
    }
  }

  lemma RekeyedNow(byId: map<Key, Model>, members: set<Model>, ids: map<Model, Option<string>>, m: Model,
      id: Option<string>)
    requires Indexed(byId, members) && m in members && m.id != id && ids == IdsOf(members)
    ensures
      IndexedAs(Rekeyed(byId, m, m.id, id), ids[m := id])
      <==> id.None? || forall n :: n in members && n.id == id ==> n == m
  {
    hide Rekeyed, IndexedAs;
    IndexedNow(byId, members, ids);
    RekeyedAgrees(byId, ids, m, id);
  }

  function Given(inputs: seq<Input>): set<Model> {
    set i | 0 <= i < |inputs| && inputs[i].Existing? :: inputs[i].model
  }

  predicate Same(a: Input, b: Input)
    reads if a.Existing? then {a.model} else {}, if b.Existing? then {b.model} else {}
  {
    || (a.Existing? && a == b)
    || (IdOf(a).Some? && IdOf(a) == IdOf(b))
  }

  /** The input leads to a model without help from earlier inputs. */
  ghost predicate Firm(input: Input, members: set<Model>)
    reads members, if input.Existing? then {input.model} else {}
  {
    input.Existing? || input.valid || exists m :: m in members && Matches(input, m)
  }

  /** Two inputs are the same model or carry the same id, and the first of them leads to a model. */
  ghost predicate Clash(inputs: seq<Input>, members: set<Model>)
    reads members, set i | 0 <= i < |inputs| && inputs[i].Existing? :: inputs[i].model
  {
    exists i, j :: 0 <= i < j < |inputs| && Same(inputs[i], inputs[j]) && Firm(inputs[i], members)
  }

  /** The members that some input means. */
  ghost function Meant(inputs: seq<Input>, models: seq<Model>): set<Model>
    reads models, set i | 0 <= i < |inputs| && inputs[i].Existing? :: inputs[i].model
  {
    set m | m in models && exists i :: 0 <= i < |inputs| && Matches(inputs[i], m)
  }

  lemma MeantGrows(inputs: seq<Input>, i: nat, models: seq<Model>)
    requires i < |inputs|
    ensures Meant(inputs[..i + 1], models) == Meant(inputs[..i], models) + set m | m in models && Matches(inputs[i], m)
  {
    assert inputs[..i + 1] == inputs[..i] + [inputs[i]];
    forall m | m in models
      ensures m in Meant(inputs[..i + 1], models) <==> m in Meant(inputs[..i], models) || Matches(inputs[i], m)
    {
      if m in Meant(inputs[..i], models) {
        var j :| 0 <= j < i && Matches(inputs[..i][j], m);
        assert inputs[..i + 1][j] == inputs[..i][j];
      }
      if Matches(inputs[i], m) { assert inputs[..i + 1][i] == inputs[i]; }
    }
  }

  /** An input means at most one of the indexed models. */
  lemma OneMeant(input: Input, byId: map<Key, Model>, members: set<Model>, m: Model, n: Model)
    requires Indexed(byId, members) && m in members && n in members
    requires Matches(input, m) && Matches(input, n)
    ensures m == n
  {
  }

  function KeysOf(m: Model): set<Key>
    reads m
  {
    {Cid(m)} + if m.id.Some? then {Id(m.id.value)} else {}
  }

  lemma IndexedLess(byId: map<Key, Model>, members: set<Model>, m: Model)
    requires Indexed(byId, members) && m in members
    ensures Indexed(byId - KeysOf(m), members - {m})
  {
  }

  lemma IndexedMore(byId: map<Key, Model>, after: map<Key, Model>, members: set<Model>, m: Model)
    requires Indexed(byId, members)
    requires m.id.Some? ==> Id(m.id.value) !in byId
    requires after.Keys == byId.Keys + KeysOf(m)
    requires forall k :: k in after ==> after[k] == if k in KeysOf(m) then m else byId[k]
    ensures Indexed(after, members + {m})
  {
  }

  /** How the inputs seen so far and the models they lead to hang together: two lead to the same one
    * exactly if they are the same, and the first of them does so without help. */
  ghost predicate Tracked(inputs: seq<Input>, resolved: seq<Option<Model>>, members: set<Model>)
    requires |resolved| <= |inputs|
    reads members, set i | 0 <= i < |inputs| && inputs[i].Existing? :: inputs[i].model
  {
    && (forall j :: 0 <= j < |resolved| ==> Paired(inputs, resolved, j))
    && (forall i :: 0 <= i < |resolved| && Firm(inputs[i], members) ==> resolved[i].Some?)
    && (forall i :: 0 <= i < |resolved| && resolved[i].Some? ==> Founded(inputs, resolved, i, members))
  }

  ghost predicate Paired(inputs: seq<Input>, resolved: seq<Option<Model>>, j: nat)
    requires j < |resolved| <= |inputs|
    reads set i | 0 <= i < |inputs| && inputs[i].Existing? :: inputs[i].model
  {
    forall i :: 0 <= i < j && resolved[i].Some? ==> (Same(inputs[i], inputs[j]) <==> resolved[i] == resolved[j])
  }

  ghost predicate Founded(inputs: seq<Input>, resolved: seq<Option<Model>>, i: nat, members: set<Model>)
    requires i < |resolved| <= |inputs|
    reads members, set i | 0 <= i < |inputs| && inputs[i].Existing? :: inputs[i].model
  {
    exists g :: 0 <= g <= i && Firm(inputs[g], members) && resolved[g] == resolved[i]
  }

  /** No model is there twice. */
  ghost predicate Once<T>(s: seq<Option<T>>) {
    forall i, j :: 0 <= i < j < |s| && s[i].Some? ==> s[i] != s[j]
  }

  lemma DistinctSnoc<T>(s: seq<T>, x: T)
    ensures Distinct(s + [x]) <==> Distinct(s) && x !in s
  {
    var all := s + [x];
    assert forall i :: 0 <= i < |s| ==> all[i] == s[i];
    if x in s {
      var i :| 0 <= i < |s| && s[i] == x;
      assert all[i] == all[|s|];
    }
    assert Distinct(all) ==> forall i, j :: 0 <= i < j < |s| ==> all[i] != all[j];
  }

  lemma OnceSnoc<T>(s: seq<Option<T>>, x: Option<T>)
    ensures Once(s + [x]) <==> Once(s) && (x.Some? ==> x !in s)
  {
    var all := s + [x];
    assert forall i :: 0 <= i < |s| ==> all[i] == s[i];
    if x.Some? && x in s {
      var i :| 0 <= i < |s| && s[i] == x;
      assert all[i] == all[|s|];
    }
    assert Once(all) ==> forall i, j :: 0 <= i < j < |s| && all[i].Some? ==> all[i] != all[j];
  }

  lemma {:induction false} SomesDistinct<T>(s: seq<Option<T>>)
    ensures Distinct(Somes(s)) <==> Once(s)
  {
    if s != [] {
      var front, last := s[..|s| - 1], s[|s| - 1];
      assert s == front + [last];
      SomesDistinct(front);
      OnceSnoc(front, last);
      if last.Some? {
        DistinctSnoc(Somes(front), last.value);
      } else {
        assert Somes(s) == Somes(front);
      }
    }
  }

  lemma TwiceClashes(inputs: seq<Input>, resolved: seq<Option<Model>>, members: set<Model>, i: nat, j: nat)
    requires |resolved| == |inputs| && Tracked(inputs, resolved, members)
    requires i < j < |resolved| && resolved[i].Some? && resolved[i] == resolved[j]
    ensures Clash(inputs, members)
  {
    hide Same, Firm;
    assert Founded(inputs, resolved, i, members) && Paired(inputs, resolved, j);
    var g :| 0 <= g <= i && Firm(inputs[g], members) && resolved[g] == resolved[i];
    assert Same(inputs[g], inputs[j]);
  }

  lemma ClashingTwice(inputs: seq<Input>, resolved: seq<Option<Model>>, members: set<Model>)
    requires |resolved| == |inputs| && Tracked(inputs, resolved, members) && Clash(inputs, members)
    ensures !Once(resolved)
  {
    hide Same, Firm, Founded;
    var i, j :| 0 <= i < j < |inputs| && Same(inputs[i], inputs[j]) && Firm(inputs[i], members);
    assert Paired(inputs, resolved, j);
    assert resolved[i] == resolved[j];
  }

  lemma DistinctUnlessClash(inputs: seq<Input>, resolved: seq<Option<Model>>, members: set<Model>)
    requires |resolved| == |inputs| && Tracked(inputs, resolved, members)
    ensures Distinct(Somes(resolved)) <==> !Clash(inputs, members)
  {
    hide Tracked, Clash;
    SomesDistinct(resolved);
    if i, j :| 0 <= i < j < |resolved| && resolved[i].Some? && resolved[i] == resolved[j] {
      TwiceClashes(inputs, resolved, members, i, j);
    } else if Clash(inputs, members) {
      ClashingTwice(inputs, resolved, members);
    }
  }

  /** Each result is a member with the id of its input; a model made from attributes is nobody's input. */
  ghost predicate Led(inputs: seq<Input>, resolved: seq<Option<Model>>, members: set<Model>)
    reads members, set i | 0 <= i < |inputs| && inputs[i].Existing? :: inputs[i].model
  {
    |resolved| <= |inputs| &&
    forall i :: 0 <= i < |resolved| && resolved[i].Some? ==>
      var m := resolved[i].value;
      && m in members && m.id == IdOf(inputs[i])
      && (m.id.None? ==> if inputs[i].Existing? then m == inputs[i].model else m !in Given(inputs))
  }

  /** What an input leads to among the models known so far: one of them, or nothing, or a new one. */
  ghost predicate Leads(input: Input, next: Option<Model>, members: set<Model>)
    reads members, if input.Existing? then {input.model} else {}
  {
    if next.Some? && next.value in members then Matches(input, next.value)
    else
      && (forall m :: m in members ==> !Matches(input, m))
      && next.Some? == (input.Existing? || input.valid)
  }

  lemma PairGrows(inputs: seq<Input>, i: nat, j: nat, byId: map<Key, Model>, resolved: seq<Option<Model>>,
                  next: Option<Model>, members: set<Model>)
    requires j < i < |inputs| && i == |resolved| && Led(inputs, resolved, members) && resolved[j].Some?
    requires Indexed(byId, members) && Leads(inputs[i], next, members)
    ensures Same(inputs[j], inputs[i]) <==> resolved[j] == next
  {
    var r := resolved[j].value;
    if Some(r) == next && r.id.None? {
      assert inputs[i] == Existing(r);
      assert r in Given(inputs);
    }
    if Same(inputs[j], inputs[i]) {
      assert Matches(inputs[i], r);
      if next.Some? && next.value in members { OneMeant(inputs[i], byId, members, r, next.value); }
    }
  }

  lemma FirmGrows(inputs: seq<Input>, i: nat, resolved: seq<Option<Model>>, next: Option<Model>,
      before: set<Model>, members: set<Model>)
    requires i == |resolved| < |inputs| && Tracked(inputs, resolved, before)
    requires before <= members && forall m :: m in members ==> m in before || Some(m) in resolved
    requires Leads(inputs[i], next, members)
    ensures Firm(inputs[i], before) ==> next.Some?
    ensures next.Some? ==>
      || Firm(inputs[i], before)
      || exists g :: 0 <= g < i && Firm(inputs[g], before) && resolved[g] == next
  {
    if next.Some? && !Firm(inputs[i], before) {
      assert next.value in members && next.value !in before;
      var j :| 0 <= j < i && resolved[j] == next;
      assert Founded(inputs, resolved, j, before);
    }
  }

  lemma FoundedGrows(inputs: seq<Input>, resolved: seq<Option<Model>>, next: Option<Model>, before: set<Model>, j: nat)
    requires j <= |resolved| < |inputs| && (resolved + [next])[j].Some?
    requires if j < |resolved| then Founded(inputs, resolved, j, before)
      else Firm(inputs[j], before) || exists g :: 0 <= g < j && Firm(inputs[g], before) && resolved[g] == next
    ensures Founded(inputs, resolved + [next], j, before)
  {
    var all := resolved + [next];
    if j < |resolved| {
      var g :| 0 <= g <= j && Firm(inputs[g], before) && resolved[g] == resolved[j];
      assert all[g] == all[j];
    } else if !Firm(inputs[j], before) {
      var g :| 0 <= g < j && Firm(inputs[g], before) && resolved[g] == next;
      assert all[g] == all[j];
    }
  }

  /** One more input. */
  lemma TrackedGrows(inputs: seq<Input>, i: nat, byId: map<Key, Model>, resolved: seq<Option<Model>>,
                     next: Option<Model>, before: set<Model>, members: set<Model>)
    requires i == |resolved| < |inputs| && Tracked(inputs, resolved, before) && Led(inputs, resolved, members)
    requires Indexed(byId, members) && before <= members
    requires forall m :: m in members ==> m in before || Some(m) in resolved
    requires Leads(inputs[i], next, members)
    ensures Tracked(inputs, resolved + [next], before)
  {
    hide Indexed, Led, Leads, Same, Matches, Firm;
    var all := resolved + [next];
    FirmGrows(inputs, i, resolved, next, before, members);
    forall j | 0 <= j <= i ensures Paired(inputs, all, j) {
      if j < i {
        assert Paired(inputs, resolved, j);
      } else {
        forall h | 0 <= h < i && resolved[h].Some? ensures Same(inputs[h], inputs[i]) <==> resolved[h] == next {
          PairGrows(inputs, i, h, byId, resolved, next, members);
        }
      }
    }
    forall j | 0 <= j <= i && all[j].Some? ensures Founded(inputs, all, j, before) {
      FoundedGrows(inputs, resolved, next, before, j);
    }
    hide Paired, Founded;
  }

  /** An input that means no member of before and repeats no earlier input brings what it is. */
  ghost predicate Settled(inputs: seq<Input>, i: nat, result: Option<Model>, before: set<Model>)
    requires i < |inputs|
    reads before, set i | 0 <= i < |inputs| && inputs[i].Existing? :: inputs[i].model
  {
    && (forall m :: m in before && Matches(inputs[i], m) ==> result == Some(m))
    && ((forall m :: m in before ==> !Matches(inputs[i], m))
        && (forall j :: 0 <= j < i ==> !Same(inputs[j], inputs[i])) ==>
        match inputs[i]
        case Existing(m) => result == Some(m)
        case Attrs(id, valid) =>
          result.Some? == valid && (valid ==> result.value !in before && result.value !in Given(inputs)))
  }

  lemma LedGrows(inputs: seq<Input>, i: nat, resolved: seq<Option<Model>>, next: Option<Model>, members: set<Model>)
    requires |resolved| == i < |inputs| && Led(inputs, resolved, members)
    requires next.Some? && next.value in members ==> Matches(inputs[i], next.value)
    requires next.Some? && next.value !in members ==>
      if inputs[i].Existing? then next.value == inputs[i].model
      else next.value !in Given(inputs) && next.value.id == inputs[i].id
    ensures Led(inputs, resolved + [next], members + if next.Some? then {next.value} else {})
  {
    var all := resolved + [next];
    assert forall j :: 0 <= j < i ==> all[j] == resolved[j];
    if next.Some? && next.value in members && next.value.id.None? {
      assert inputs[i] == Existing(next.value);
    }
  }

  lemma SettledNext(inputs: seq<Input>, i: nat, byId: map<Key, Model>, resolved: seq<Option<Model>>,
                    next: Option<Model>, before: set<Model>, members: set<Model>)
    requires i < |inputs| && |resolved| == i && Led(inputs, resolved, members)
    requires Indexed(byId, members) && before <= members
    requires forall m :: m in members ==> m in before || Some(m) in resolved
    requires Leads(inputs[i], next, members)
    requires next.Some? && next.value !in members ==>
      if inputs[i].Existing? then next.value == inputs[i].model else next.value !in Given(inputs)
    ensures Settled(inputs, i, next, before)
  {
    hide Indexed;
    var input := inputs[i];
    forall m | m in before && Matches(input, m) ensures next == Some(m) {
      OneMeant(input, byId, members, m, next.value);
    }
    if next.Some? && next.value in members && next.value !in before {
      assert next in resolved;
      var j :| 0 <= j < i && resolved[j] == next;
      PairGrows(inputs, i, j, byId, resolved, next, members);
    }
  }

  /** The sequence after `set`. Adding and removing without a position takes the order of the inputs;
    * otherwise what stays keeps its order and the new models go in together. */
  ghost function SetResult(before: seq<Model>, resolved: seq<Option<Model>>, add: bool, remove: bool,
      at: Option<nat>): seq<Model> {
    if add && remove && at.None? then Somes(resolved)
    else
      var kept := if remove then Without(before, set m | m in before && Some(m) !in resolved) else before;
      Inserted(kept, if at.Some? then at.value else |kept|, if add then News(Somes(resolved), Members(before)) else [])
  }

  lemma ResultFromNothing(before: seq<Model>, resolved: seq<Option<Model>>)
    requires before == []
    ensures Members(before) == {}
    ensures SetResult(before, resolved, true, false, None) == News(Somes(resolved), {})
  {
    assert Members(before) == {};
    var news := News(Somes(resolved), {});
    assert Inserted(before, 0, news) == news;
  }

  /** Adding leaves the members as they are and puts the new ones behind them, or together where it is told. */
  lemma AddKeepsMembers(before: seq<Model>, resolved: seq<Option<Model>>, at: Option<nat>)
    ensures
      var news := News(Somes(resolved), Members(before));
      SetResult(before, resolved, true, false, at)
      == if at.Some? && at.value < |before| then before[..at.value] + news + before[at.value..] else before + news
  {
  }

  /** Who is a member after `set`, for all its options: of those before, all, or with removal those an input
    * led to; and with adding whatever an input led to. */
  lemma SetMembers(before: seq<Model>, resolved: seq<Option<Model>>, add: bool, remove: bool, at: Option<nat>, m: Model)
    requires !add ==> forall r :: r in resolved && r.Some? ==> r.value in before
    ensures
      m in SetResult(before, resolved, add, remove, at)
      <==> (m in before && (!remove || Some(m) in resolved)) || (add && Some(m) in resolved)
  {
    var kept := if remove then Without(before, set x | x in before && Some(x) !in resolved) else before;
    var news := if add then News(Somes(resolved), Members(before)) else [];
    assert m in Somes(resolved) <==> Some(m) in resolved;
    assert m in kept <==> m in before && (!remove || Some(m) in resolved);
    InsertedMembers(kept, if at.Some? then at.value else |kept|, news, m);
    hide Inserted, Without, Somes, News;
  }

  lemma InsertedMembers(s: seq<Model>, at: nat, t: seq<Model>, m: Model)
    ensures m in Inserted(s, at, t) <==> m in s || m in t
  {
    var k := if at <= |s| then at else |s|;
    assert s == s[..k] + s[k..];
  }

  /** What stays and what is new are together what was resolved, so the counts agree if nothing is there twice. */
  lemma OrderedCount(before: seq<Model>, kept: seq<Model>, resolved: seq<Option<Model>>, toAdd: seq<Model>)
    requires Distinct(kept) && toAdd == News(Somes(resolved), Members(before))
    requires forall m :: m in kept ==> m in before && Some(m) in resolved
    requires forall m :: m in before && Some(m) in resolved ==> m in kept
    ensures Members(Somes(resolved)) == Members(kept) + Members(toAdd)
    ensures |kept| + |toAdd| == |Members(Somes(resolved))|
  {
    assert Members(Somes(resolved)) == Members(kept) + Members(toAdd);
    DistinctSize(kept);
    DistinctSize(toAdd);
  }

  lemma InsertedDistinct(s: seq<Model>, at: nat, t: seq<Model>)
    requires Distinct(s) && Distinct(t) && Members(s) !! Members(t)
    ensures Distinct(Inserted(s, at, t)) && Members(Inserted(s, at, t)) == Members(s) + Members(t)
    ensures |Inserted(s, at, t)| == |s| + |t|
  {
    var k := if at <= |s| then at else |s|;
    assert s == s[..k] + s[k..];
    forall x | x in s[..k] ensures x !in s[k..] {
      var i :| 0 <= i < k && s[..k][i] == x;
      assert forall j :: 0 <= j < |s| - k ==> s[k..][j] == s[k + j] != s[i];
    }
    forall x | x in s[k..] ensures x !in t { assert x in Members(s); }
    forall x | x in s[..k] ensures x !in t { assert x in Members(s); }
    DistinctAppend(s[..k], t);
    DistinctAppend(s[..k] + t, s[k..]);
    assert Members(s) == Members(s[..k]) + Members(s[k..]) by {
      forall x | x in s ensures x in s[..k] || x in s[k..] { assert x in s[..k] + s[k..]; }
    }
    assert Members(Inserted(s, at, t)) == Members(s[..k]) + Members(t) + Members(s[k..]);
  }

  lemma DistinctAppend(s: seq<Model>, t: seq<Model>)
    requires Distinct(s) && Distinct(t) && forall x :: x in s ==> x !in t
    ensures Distinct(s + t)
  {
    forall i, j | 0 <= i < j < |s + t| ensures (s + t)[i] != (s + t)[j] {
      if i < |s| <= j {
        assert s[i] in s && t[j - |s|] in t;
      } else if |s| <= i {
        assert t[i - |s|] != t[j - |s|];
      }
    }
  }

  lemma InsertedEnds(s: seq<Model>, at: nat, t: seq<Model>)
    ensures Inserted(s, |s|, t) == s + t && Inserted(s, at, []) == s
  {
  }

  /** With the order of the inputs the books agree exactly if no two inputs clash. */
  lemma OrderedAgrees(inputs: seq<Input>, before: seq<Model>, models: seq<Model>, was: map<Key, Model>,
                      byId: map<Key, Model>, resolved: seq<Option<Model>>, toAdd: seq<Model>, kept: set<Model>)
    requires Indexed(byId, Members(models) + Members(toAdd))
    requires |resolved| == |inputs| && Progress(inputs, true, was, before, resolved, toAdd, kept)
    requires Distinct(before) && models == Without(before, Members(before) - kept)
    ensures var order := Somes(resolved);
      && (order == [] ==> toAdd == [] && models == [])
      && (|models| + |toAdd| == |order| && Distinct(order) && Indexed(byId, Members(order)) <==>
          !Clash(inputs, Members(before)))
  {
    hide Indexed, Led, Settled, Clash, Tracked, Somes, News, Without;
    var order := Somes(resolved);
    DistinctUnlessClash(inputs, resolved, Members(before));
    OrderedCount(before, models, resolved, toAdd);
    DistinctSize(order);
    if models != [] { assert models[0] in models && models[0] in Members(order); }
    if toAdd != [] { assert toAdd[0] in toAdd && toAdd[0] in Members(order); }
  }

  /** The first loop of `set`: what has become of the inputs so far. */
  ghost predicate Progress(inputs: seq<Input>, add: bool, byId: map<Key, Model>, models: seq<Model>,
                           resolved: seq<Option<Model>>, toAdd: seq<Model>, kept: set<Model>)
    requires |resolved| <= |inputs|
    reads models, toAdd, set i | 0 <= i < |inputs| && inputs[i].Existing? :: inputs[i].model
  {
    var before := Members(models);
    && toAdd == News(Somes(resolved), before) && (!add ==> toAdd == [])
    && (forall m :: m in kept ==> m in models && Some(m) in resolved)
    && (forall m :: m in models && Some(m) in resolved ==> m in kept)
    && Indexed(byId, before + Members(toAdd))
    && Led(inputs, resolved, before + Members(toAdd))
    && (forall i, m :: 0 <= i < |resolved| && m in models && Matches(inputs[i], m) ==> resolved[i] == Some(m))
    && (!add ==> forall i :: 0 <= i < |resolved| && resolved[i].Some? ==> resolved[i].value in models)
    && (add ==> Tracked(inputs, resolved, before))
    && (add ==> forall i :: 0 <= i < |resolved| ==> Settled(inputs, i, resolved[i], before))
  }

  lemma ProgressStarts(inputs: seq<Input>, add: bool, byId: map<Key, Model>, models: seq<Model>)
    requires Indexed(byId, Members(models))
    ensures Progress(inputs, add, byId, models, [], [], {})
  {
    assert Members(models) + Members<Model>([]) == Members(models);
  }

  lemma ProgressGives(inputs: seq<Input>, add: bool, byId: map<Key, Model>, models: seq<Model>,
                      resolved: seq<Option<Model>>, toAdd: seq<Model>, kept: set<Model>)
    requires |resolved| == |inputs| && Progress(inputs, add, byId, models, resolved, toAdd, kept)
    ensures toAdd == (if add then News(Somes(resolved), Members(models)) else [])
    ensures Distinct(toAdd) && Members(models) !! Members(toAdd)
    ensures kept <= Members(models)
    ensures Members(models) - kept == set m | m in models && Some(m) !in resolved
    ensures Indexed(byId, Members(models) + Members(toAdd))
    ensures forall i, m :: 0 <= i < |inputs| && m in models && Matches(inputs[i], m) ==> resolved[i] == Some(m)
    ensures !add ==> forall i :: 0 <= i < |inputs| && resolved[i].Some? ==> resolved[i].value in models
    ensures add ==> forall i :: 0 <= i < |inputs| ==> Settled(inputs, i, resolved[i], Members(models))
  {
    hide Indexed, Led, Settled, Tracked, Somes, Matches;
  }

  lemma ProgressIndexed(inputs: seq<Input>, add: bool, byId: map<Key, Model>, models: seq<Model>,
                        resolved: seq<Option<Model>>, toAdd: seq<Model>, kept: set<Model>)
    requires |resolved| <= |inputs| && Progress(inputs, add, byId, models, resolved, toAdd, kept)
    ensures Indexed(byId, Members(models) + Members(toAdd))
  {
  }

  /** What `set` does with one input: a member it means, or else a new one, indexed at once. */
  ghost predicate Resolved(inputs: seq<Input>, i: nat, add: bool, was: map<Key, Model>, byId: map<Key, Model>,
                           members: set<Model>, model: Option<Model>, isNew: bool)
    requires i < |inputs|
    reads members, set i | 0 <= i < |inputs| && inputs[i].Existing? :: inputs[i].model,
        if model.Some? then {model.value} else {}
  {
    var input := inputs[i];
    && (!isNew ==> byId == was && (model.Some? ==> model.value in members && Matches(input, model.value)))
    && (isNew ==>
          && add && model.Some? && model.value !in members && Indexed(byId, members + {model.value})
          && if input.Existing? then model.value == input.model
             else model.value !in Given(inputs) && model.value.id == input.id)
    && (isNew || model.None? ==> forall m :: m in members ==> !Matches(input, m))
    && (add && (isNew || model.None?) ==> model.Some? == (input.Existing? || input.valid))
  }

  lemma LeadsIfResolved(inputs: seq<Input>, i: nat, was: map<Key, Model>, byId: map<Key, Model>,
                        members: set<Model>, model: Option<Model>, isNew: bool, add: bool)
    requires i < |inputs| && Resolved(inputs, i, add, was, byId, members, model, isNew)
    ensures add ==> Leads(inputs[i], model, members)
  {
  }

  lemma ProgressStep(inputs: seq<Input>, add: bool, was: map<Key, Model>, byId: map<Key, Model>, models: seq<Model>,
                     resolved: seq<Option<Model>>, toAdd: seq<Model>, kept: set<Model>, model: Option<Model>,
                         isNew: bool)
    requires |resolved| < |inputs| && Progress(inputs, add, was, models, resolved, toAdd, kept)
    requires Resolved(inputs, |resolved|, add, was, byId, Members(models) + Members(toAdd), model, isNew)
    ensures Progress(inputs, add, byId, models, resolved + [model], toAdd + (if isNew then [model.value] else []),
                     kept + if model.Some? && model.value in models then {model.value} else {})
  {
    hide Tracked, Settled, Led, Leads, Matches, Indexed, News, Somes, Distinct;
    var i, before, members := |resolved|, Members(models), Members(models) + Members(toAdd);
    var added := toAdd + if isNew then [model.value] else [];
    LeadsIfResolved(inputs, i, was, byId, members, model, isNew, add);
    if add {
      TrackedGrows(inputs, i, was, resolved, model, before, members);
      SettledNext(inputs, i, was, resolved, model, before, members);
    }
    NewsGrow(resolved, before, model);
    LedGrows(inputs, i, resolved, model, members);
    assert before + Members(added) == if isNew then members + {model.value} else members;
    assert before + Members(added) == members + if model.Some? then {model.value} else {};
    forall m | m in models && Matches(inputs[i], m) ensures model == Some(m) {
      OneMeant(inputs[i], was, members, m, model.value);
    }
    var all := resolved + [model];
    var k := kept + if model.Some? && model.value in models then {model.value} else {};
    assert forall j :: 0 <= j < i ==> all[j] == resolved[j];
    assert added == News(Somes(all), before) && (!add ==> added == []);
    assert forall m :: m in k ==> m in models && Some(m) in all;
    assert forall m :: m in models && Some(m) in all ==> m in k;
    assert Indexed(byId, before + Members(added));
    assert Led(inputs, all, before + Members(added));
    assert forall j, m :: 0 <= j <= i && m in models && Matches(inputs[j], m) ==> all[j] == Some(m);
  }

  /** `set` with valid, pairwise different inputs: the sequence has the order of the inputs, with the
    * members they meant kept and the rest given or made. */
  lemma SetTakesInputOrder(inputs: seq<Input>, before: seq<Model>, resolved: seq<Option<Model>>)
    requires |resolved| == |inputs|
    requires forall i :: 0 <= i < |inputs| ==> Settled(inputs, i, resolved[i], Members(before))
    requires forall i, j :: 0 <= i < j < |inputs| ==> !Same(inputs[i], inputs[j])
    requires forall i :: 0 <= i < |inputs| ==> inputs[i].Existing? || inputs[i].valid
    ensures var after := SetResult(before, resolved, true, true, None);
      && |after| == |inputs|
      && (forall i, m :: 0 <= i < |inputs| && m in before && Matches(inputs[i], m) ==> after[i] == m)
      && (forall i :: 0 <= i < |inputs| && (forall m :: m in before ==> !Matches(inputs[i], m)) ==>
            if inputs[i].Existing? then after[i] == inputs[i].model
            else after[i] !in before && after[i] !in Given(inputs))
  {
    forall i | 0 <= i < |inputs| ensures resolved[i].Some? {
      assert Settled(inputs, i, resolved[i], Members(before));
      if m :| m in before && Matches(inputs[i], m) { assert resolved[i] == Some(m); }
    }
    AllInOrder(resolved);
  }

  class Collection {
    var models: seq<Model>
    var length: nat
    var byId: map<Key, Model>

    /** The books agree, but for models that are indexed already and not yet in the sequence. */
    ghost predicate Booked(pending: set<Model>)
      reads this, models, pending
    {
      && length == |models| && Distinct(models)
      && Members(models) !! pending
      && Indexed(byId, Members(models) + pending)
    }

    ghost predicate Agrees()
      reads this, models
    {
      length == |models| && Distinct(models) && Indexed(byId, Members(models))
    }

    constructor ()
      ensures Agrees() && models == []
    {
      models, length, byId := [], 0, map[];
    }

    function Get(input: Input): Option<Model>
      reads this, if input.Existing? then {input.model} else {}
    {
      if IdOf(input).Some? && Id(IdOf(input).value) in byId then Some(byId[Id(IdOf(input).value)])
      else if input.Existing? && Cid(input.model) in byId then Some(byId[Cid(input.model)])
      else None
    }

    /** With the index right, a lookup finds a member exactly if one is meant, and there is only one to find. */
    lemma GetMeans(input: Input, members: set<Model>)
      requires Indexed(byId, members)
      ensures forall m :: Get(input) == Some(m) <==> m in members && Matches(input, m)
    {
    }

    method IndexOf(m: Model) returns (index: nat)
      requires m in models
      ensures index < |models| && models[index] == m
    {
      index := 0;
      while models[index] != m
        invariant index < |models| && m in models[index..]
        decreases |models| - index
      {
        index := index + 1;
      }
    }

    method RemoveOne(model: Model, ghost pending: set<Model>)
      requires Booked(pending) && model in models
      modifies this
      ensures Booked(pending) && models == Without(old(models), {model})
    {
      hide Indexed, Without;
      IndexedLess(byId, Members(models) + pending, model);
      if model.id.Some? { byId := byId - {Id(model.id.value)}; }
      byId := byId - {Cid(model)};
      assert byId == old(byId) - KeysOf(model);
      var index := IndexOf(model);
      WithoutIsSplice(models, index);
      models := models[..index] + models[index + 1..];
      length := length - 1;
      assert Members(models) + pending == Members(old(models)) + pending - {model};
    }

    method Remove(inputs: seq<Input>, ghost pending: set<Model>)
      requires Booked(pending)
      requires forall i, m :: 0 <= i < |inputs| && m in pending ==> !Matches(inputs[i], m)
      modifies this
      ensures Booked(pending)
      ensures models == Without(old(models), Meant(inputs, old(models)))
    {
      hide Distinct, Without, Indexed;
      WithoutNone(models);
      ghost var gone: set<Model> := {};
      for i := 0 to |inputs|
        invariant Booked(pending)
        invariant gone == Meant(inputs[..i], old(models))
        invariant models == Without(old(models), gone)
      {
        var input := inputs[i];
        GetMeans(input, Members(models) + pending);
        MeantGrows(inputs, i, old(models));
        ghost var meant := set m | m in old(models) && Matches(input, m);
        var model := Get(input);
        if model.Some? {
          forall m | m in meant ensures m == model.value {
            OneMeant(input, old(byId), Members(old(models)) + pending, m, model.value);
          }
          assert meant == {model.value};
          RemoveOne(model.value, pending);
          WithoutTwice(old(models), gone, {model.value});
          gone := gone + {model.value};
        } else {
          assert meant <= gone;
        }
      }
      assert inputs[..|inputs|] == inputs;
    }

    /** The model an input stands for: the one found, else the one given or made, which is indexed at once. */
    method Resolve(ghost inputs: seq<Input>, input: Input, ghost i: nat, add: bool, ghost members: set<Model>)
      returns (model: Option<Model>, isNew: bool)
      requires i < |inputs| && input == inputs[i] && Indexed(byId, members)
      modifies this`byId
      ensures Resolved(inputs, i, add, old(byId), byId, members, model, isNew)
      ensures isNew && input.Attrs? ==> fresh(model.value)
    {
      GetMeans(input, members);
      var existing := Get(input);
      if existing.Some? { return existing, false; }
      if !add || (input.Attrs? && !input.valid) { return None, false; }
      var made: Model;
      match input {
        case Existing(m) => made := m;
        case Attrs(id, _) => made := new Model(id);
      }
      byId := byId[Cid(made) := made];
      if made.id.Some? { byId := byId[Id(made.id.value) := made]; }
      assert made.id == IdOf(input);
      IndexedMore(old(byId), byId, members, made);
      return Some(made), true;
    }

    method ResolveAll(inputs: seq<Input>, add: bool)
      returns (resolved: seq<Option<Model>>, toAdd: seq<Model>, kept: set<Model>)
      requires Agrees()
      modifies this`byId
      ensures |resolved| == |inputs| && Progress(inputs, add, byId, models, resolved, toAdd, kept)
    {
      resolved, toAdd, kept := [], [], {};
      ProgressStarts(inputs, add, byId, models);
      hide Progress, Agrees, Indexed, Matches, Members, Given, Resolved;
      for i := 0 to |inputs|
        invariant |resolved| == i <= |inputs|
        invariant Progress(inputs, add, byId, models, resolved, toAdd, kept)
      {
        resolved, toAdd, kept := ResolveNext(inputs, add, resolved, toAdd, kept);
      }
    }

    method ResolveNext(inputs: seq<Input>, add: bool, results: seq<Option<Model>>, added: seq<Model>, held: set<Model>)
      returns (resolved: seq<Option<Model>>, toAdd: seq<Model>, kept: set<Model>)
      requires |results| < |inputs| && Progress(inputs, add, byId, models, results, added, held)
      modifies this`byId
      ensures |resolved| == |results| + 1
      ensures Progress(inputs, add, byId, models, resolved, toAdd, kept)
    {
      hide Progress, Indexed, Matches, Members, Given, Resolved;
      ProgressIndexed(inputs, add, byId, models, results, added, held);
      var model, isNew := Resolve(inputs, inputs[|results|], |results|, add, Members(models) + Members(added));
      ProgressStep(inputs, add, old(byId), byId, models, results, added, held, model, isNew);
      resolved := results + [model];
      toAdd := added + if isNew then [model.value] else [];
      kept := held + if model.Some? && model.value in models then {model.value} else {};
    }

    /** The members no input led to are removed. */
    method RemoveOthers(kept: set<Model>, ghost pending: set<Model>)
      requires Booked(pending) && kept <= Members(models)
      modifies this
      ensures Booked(pending)
      ensures models == Without(old(models), Members(old(models)) - kept)
    {
      var toRemove: seq<Input> := [];
      for i := 0 to length
        invariant forall r :: r in toRemove <==> r.Existing? && r.model in models[..i] && r.model !in kept
      {
        assert models[..i + 1] == models[..i] + [models[i]];
        if models[i] !in kept {
          toRemove := toRemove + [Existing(models[i])];
        }
      }
      assert models[..length] == models;
      ghost var members := Members(models) + pending;
      forall i, m | 0 <= i < |toRemove| && m in members && Matches(toRemove[i], m) ensures toRemove[i] == Existing(m) {
        assert toRemove[i] in toRemove;
        OneMeant(toRemove[i], byId, members, toRemove[i].model, m);
      }
      assert Meant(toRemove, models) == Members(models) - kept by {
        forall m | m in models && m !in kept ensures m in Meant(toRemove, models) {
          assert Existing(m) in toRemove;
          var i :| 0 <= i < |toRemove| && toRemove[i] == Existing(m);
          assert Matches(toRemove[i], m);
        }
        forall m | m in Meant(toRemove, models) ensures m !in kept {
          var i :| 0 <= i < |toRemove| && Matches(toRemove[i], m);
          assert toRemove[i] in toRemove;
        }
      }
      forall i, m | 0 <= i < |toRemove| && m in pending ensures !Matches(toRemove[i], m) {
        assert toRemove[i] in toRemove;
      }
      Remove(toRemove, pending);
    }

    /** `set`, `add` (without removing) and what `reset` does after it has emptied the collection. */
    method Set(inputs: seq<Input>, add: bool, remove: bool, at: Option<nat>) returns (resolved: seq<Option<Model>>)
      requires Agrees()
      modifies this
      ensures |resolved| == |inputs|
      ensures models == SetResult(old(models), resolved, add, remove, at)
      ensures forall i, m :: 0 <= i < |inputs| && m in old(models) && old(Matches(inputs[i], m)) ==>
          resolved[i] == Some(m)
      ensures !add ==> forall i :: 0 <= i < |inputs| && resolved[i].Some? ==> resolved[i].value in old(models)
      ensures add ==> forall i :: 0 <= i < |inputs| ==> Settled(inputs, i, resolved[i], Members(old(models)))
      ensures Agrees() <==> !(add && remove && at.None? && old(Clash(inputs, Members(models))))
    {
      var toAdd, kept;
      hide Indexed, Settled, Clash, Somes, News, Without, Distinct, Matches, Inserted, Progress;
      resolved, toAdd, kept := ResolveAll(inputs, add);
      ProgressGives(inputs, add, byId, models, resolved, toAdd, kept);
      ghost var was := byId;
      if remove {
        RemoveOthers(kept, Members(toAdd));
      }
      ghost var stay := models;
      if add && remove {
        OrderedAgrees(inputs, old(models), stay, was, byId, resolved, toAdd, kept);
      }
      InsertedEnds(stay, if at.Some? then at.value else |stay|, toAdd);
      InsertedDistinct(stay, if at.Some? then at.value else |stay|, toAdd);
      var order := if add && remove then Somes(resolved) else [];
      if toAdd != [] || order != [] {
        length := length + |toAdd|;
        if at.Some? {
          models := Inserted(models, at.value, toAdd);
        } else if add && remove {
          models := order;
        } else {
          models := models + toAdd;
        }
      }
      if add && remove && at.None? {
        assert models == Somes(resolved) && length == |stay| + |toAdd|;
        assert Agrees() <==> !old(Clash(inputs, Members(models)));
      } else {
        assert models == Inserted(stay, if at.Some? then at.value else |stay|, toAdd);
        assert Agrees();
      }
    }

    method Add(inputs: seq<Input>, at: Option<nat>) returns (resolved: seq<Option<Model>>)
      requires Agrees()
      modifies this
      ensures Agrees()
      ensures |resolved| == |inputs| && models == SetResult(old(models), resolved, true, false, at)
      ensures forall i :: 0 <= i < |inputs| ==> Settled(inputs, i, resolved[i], Members(old(models)))
    {
      resolved := Set(inputs, true, false, at);
    }

    method Clear()
      modifies this
      ensures Agrees() && models == []
    {
      length, models, byId := 0, [], map[];
    }

    /** The old members play no part in what the inputs lead to. */
    method Reset(inputs: seq<Input>) returns (resolved: seq<Option<Model>>)
      modifies this
      ensures Agrees()
      ensures |resolved| == |inputs| && models == News(Somes(resolved), {})
      ensures forall i :: 0 <= i < |inputs| ==> Settled(inputs, i, resolved[i], {})
    {
      hide Settled, Agrees, News, Somes, Distinct, SetResult;
      Clear();
      ghost var before := models;
      resolved := Add(inputs, None);
      ResultFromNothing(before, resolved);
    }

    method Rekey(m: Model, previous: Option<string>)
      modifies this`byId
      ensures byId == Rekeyed(old(byId), m, previous, m.id)
    {
      if previous.Some? { byId := byId - {Id(previous.value)}; }
      if m.id.Some? { byId := byId[Id(m.id.value) := m]; }
    }

    /** The answer to a member's `change:id`: the books still agree exactly if no other member has the new id. */
    method ChangeId(m: Model, id: Option<string>)
      requires Agrees() && m in models && m.id != id
      modifies this`byId, m
      ensures m.id == id
      ensures Agrees() <==> id.None? || forall n :: n in models && old(n.id) == id ==> n == m
    {
      hide IndexedAs, Indexed, Distinct, Rekeyed;
      ghost var members: set<Model> := Members(models);
      ghost var ids := IdsOf(members);
      RekeyedNow(byId, members, ids, m, id);
      var previous := m.id;
      m.id := id;
      Rekey(m, previous);
      IndexedNow(byId, members, ids[m := id]);
    }
  }
}
