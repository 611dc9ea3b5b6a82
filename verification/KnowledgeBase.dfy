/** The forest of running workflows, and messages passed along it. */
module KnowledgeBase {
  import opened Views

  type Pid = int

  /** The events a process instance accepts, in order. */
  type Callable = Pid -> seq<string>

  /** What reaches the process: the message itself, or wrapped in a forward with its sender. */
  datatype Signal =
    | Direct(target: Pid, message: string)
    | Forward(target: Pid, from: Pid, message: string)

  const ONFORWARD := "Message-onForward"

  /** The message comes among the events, with no catch-all before it. */
  ghost predicate Directly(message: string, events: seq<string>) {
    exists i :: 0 <= i < |events| && events[i] == message && forall j :: 0 <= j < i ==> events[j] != ONFORWARD
  }

  /** The signal goes to the target and carries the message: as it is if that comes before the catch-all among
    * the target's events, else with its sender. */
  ghost predicate Reaches(s: Signal, from: Pid, target: Pid, message: string, events: seq<string>) {
    && s.target == target && s.message == message
    && (s.Direct? <==> Directly(message, events))
    && (s.Forward? ==> s.from == from)
  }

  /** The first callable event that is the message or the catch-all decides. */
  function Reaction(from: Pid, target: Pid, message: string, events: seq<string>): (s: Option<Signal>)
    ensures s.Some? <==> message in events || ONFORWARD in events
  {
    if events == [] then None
    else if events[0] == message then Some(Direct(target, message))
    else if events[0] == ONFORWARD then Some(Forward(target, from, message))
    else Reaction(from, target, message, events[1..])
  }

  lemma {:induction false} ReactionReaches(from: Pid, target: Pid, message: string, events: seq<string>)
    requires message in events || ONFORWARD in events
    ensures Reaches(Reaction(from, target, message, events).value, from, target, message, events)
  {
    if events[0] == message {
      assert Directly(message, events);
    } else if events[0] != ONFORWARD {
      var rest := events[1..];
      assert events == [events[0]] + rest;
      ReactionReaches(from, target, message, rest);
      if Directly(message, rest) {
        var i :| 0 <= i < |rest| && rest[i] == message && forall j :: 0 <= j < i ==> rest[j] != ONFORWARD;
        assert events[i + 1] == message;
      }
      if Directly(message, events) {
        var i :| 0 <= i < |events| && events[i] == message && forall j :: 0 <= j < i ==> events[j] != ONFORWARD;
        assert rest[i - 1] == message;
        assert forall j :: 0 <= j < i - 1 ==> rest[j] == events[j + 1];
      }
    }
  }

  ghost predicate Accepts(callable: Callable, target: Pid, message: string) {
    message in callable(target) || ONFORWARD in callable(target)
  }

  // ---------- the forest ----------

  /** Ranks grow from parent to child. */
  ghost predicate Ranked(parent: map<Pid, Pid>, rank: map<Pid, nat>) {
    forall c :: c in parent ==> c in rank && parent[c] in rank && rank[parent[c]] < rank[c]
  }

  /** Parent and child maps are each other's inverse, every child listed once; ranks grow from parent to
    * child, so there is no cycle. */
  ghost predicate Forest(parent: map<Pid, Pid>, children: map<Pid, seq<Pid>>, rank: map<Pid, nat>) {
    && Ranked(parent, rank)
    && (forall c :: c in parent ==> parent[c] in children && c in children[parent[c]])
    && (forall p, i :: p in children && 0 <= i < |children[p]| ==>
          children[p][i] in parent && parent[children[p][i]] == p)
    && (forall p, i, j :: p in children && 0 <= i < j < |children[p]| ==> children[p][i] != children[p][j])
    && (forall p :: p in children ==> p in rank)
  }

  /** The proper ancestors of a process, nearest first. */
  ghost function Ancestors(parent: map<Pid, Pid>, rank: map<Pid, nat>, p: Pid): (r: seq<Pid>)
    requires Ranked(parent, rank)
    ensures p !in r
    ensures p in rank ==> forall i :: 0 <= i < |r| ==> r[i] in rank && rank[r[i]] < rank[p]
    decreases if p in rank then rank[p] + 1 else 0
  {
    if p !in parent then [] else [parent[p]] + Ancestors(parent, rank, parent[p])
  }

  /** They are the parent, its parent, and so on up to a process without one. */
  lemma {:induction false} AncestorsChain(parent: map<Pid, Pid>, rank: map<Pid, nat>, p: Pid)
    requires Ranked(parent, rank)
    ensures
      var a := Ancestors(parent, rank, p);
      && (p in parent <==> a != [])
      && (a != [] ==> a[0] == parent[p] && a[|a| - 1] !in parent)
      && (forall i :: 0 <= i < |a| - 1 ==> a[i] in parent && a[i + 1] == parent[a[i]])
      && (forall i, j :: 0 <= i < j < |a| ==> a[i] != a[j])
    decreases if p in rank then rank[p] + 1 else 0
  {
    if p in parent {
      AncestorsChain(parent, rank, parent[p]);
      var a, rest := Ancestors(parent, rank, p), Ancestors(parent, rank, parent[p]);
      assert forall i :: 0 < i < |a| ==> a[i] == rest[i - 1];
    }
  }

  /** First index at which the target accepts; the length if none does. */
  ghost function FirstAccepting(callable: Callable, targets: seq<Pid>, message: string): (k: nat)
    ensures k <= |targets|
    ensures k < |targets| ==> Accepts(callable, targets[k], message)
    ensures forall i :: 0 <= i < k ==> !Accepts(callable, targets[i], message)
  {
    if targets == [] || Accepts(callable, targets[0], message) then 0
    else FirstAccepting(callable, targets[1..], message) + 1
  }

  function Reverse(s: seq<Pid>): (r: seq<Pid>)
    ensures |r| == |s| && forall i :: 0 <= i < |s| ==> r[i] == s[|s| - 1 - i]
  {
    if s == [] then [] else [s[|s| - 1]] + Reverse(s[..|s| - 1])
  }

  lemma {:induction false} ReverseSame(s: seq<Pid>)
    ensures multiset(Reverse(s)) == multiset(s)
  {
    if s != [] {
      ReverseSame(s[..|s| - 1]);
      assert s == s[..|s| - 1] + [s[|s| - 1]];
    }
  }

  /** A stack (top at the end) after a message was offered from the top down: those above the acceptor
    * went below it in the order they were popped; without an acceptor the stack is turned over. */
  ghost function AfterOffer(callable: Callable, stack: seq<Pid>, message: string): seq<Pid> {
    var k := FirstAccepting(callable, Reverse(stack), message);
    if k == |stack| then Reverse(stack)
    else stack[..|stack| - 1 - k] + Reverse(stack)[..k] + [stack[|stack| - 1 - k]]
  }

  /** Place by place: those below the acceptor stay, those above it follow in the order they were tried. */
  lemma OfferOrder(callable: Callable, stack: seq<Pid>, message: string, i: nat)
    requires i < |stack|
    ensures
      var k, after := FirstAccepting(callable, Reverse(stack), message), AfterOffer(callable, stack, message);
      && |after| == |stack|
      && after[i] == if k == |stack| then stack[|stack| - 1 - i]
                     else if i < |stack| - 1 - k then stack[i]
                     else if i < |stack| - 1 then stack[|stack| - 1 - (i - (|stack| - 1 - k))]
                     else stack[|stack| - 1 - k]
  {
    hide FirstAccepting, Reverse;
  }

  lemma OfferAccepted(callable: Callable, stack: seq<Pid>, message: string, k: nat)
    requires k < |stack| && k <= FirstAccepting(callable, Reverse(stack), message)
    requires Accepts(callable, stack[|stack| - 1 - k], message)
    ensures k == FirstAccepting(callable, Reverse(stack), message)
    ensures AfterOffer(callable, stack, message)
            == stack[..|stack| - 1 - k] + Reverse(stack)[..k] + [stack[|stack| - 1 - k]]
  {
    hide Reverse, FirstAccepting, Accepts;
    assert Reverse(stack)[k] == stack[|stack| - 1 - k];
  }

  lemma OfferRefused(callable: Callable, stack: seq<Pid>, message: string)
    requires |stack| <= FirstAccepting(callable, Reverse(stack), message)
    ensures |stack| == FirstAccepting(callable, Reverse(stack), message)
    ensures AfterOffer(callable, stack, message) == [] + Reverse(stack)[..|stack|]
  {
    hide Reverse, FirstAccepting;
  }

  /** No child is lost or doubled, and an acceptor ends up on top. */
  lemma OfferKeepsChildren(callable: Callable, stack: seq<Pid>, message: string)
    ensures multiset(AfterOffer(callable, stack, message)) == multiset(stack)
    ensures
      var k := FirstAccepting(callable, Reverse(stack), message);
      k < |stack| ==> AfterOffer(callable, stack, message)[|stack| - 1] == stack[|stack| - 1 - k]
  {
    var r := Reverse(stack);
    hide FirstAccepting, Reverse, Accepts;
    ReverseSame(stack);
    var k := FirstAccepting(callable, r, message);
    if k < |stack| {
      var j := |stack| - 1 - k;
      ReverseTop(stack, k);
      assert stack[|stack| - k..] == stack[j + 1..];
      assert stack == stack[..j] + [stack[j]] + stack[j + 1..];
      Rearranged(stack[..j], [stack[j]], stack[j + 1..], r[..k]);
    }
  }

  lemma Rearranged(a: seq<Pid>, b: seq<Pid>, c: seq<Pid>, c': seq<Pid>)
    requires multiset(c) == multiset(c')
    ensures multiset(a + c' + b) == multiset(a + b + c)
  {
  }

  lemma ReverseTop(s: seq<Pid>, k: nat)
    requires k <= |s|
    ensures multiset(Reverse(s)[..k]) == multiset(s[|s| - k..])
  {
    hide Reverse;
    var tail := s[|s| - k..];
    var above, turned := Reverse(s)[..k], Reverse(tail);
    forall i | 0 <= i < k ensures above[i] == turned[i] {
      assert above[i] == s[|s| - 1 - i] && turned[i] == tail[k - 1 - i];
    }
    assert above == turned;
    ReverseSame(tail);
  }

  lemma {:induction false} OccursOnce(s: seq<Pid>)
    requires forall i, j :: 0 <= i < j < |s| ==> s[i] != s[j]
    ensures forall x :: x in s ==> multiset(s)[x] == 1
  {
    if s != [] {
      OccursOnce(s[1..]);
      assert s == [s[0]] + s[1..];
    }
  }

  lemma {:induction false} Distinct(s: seq<Pid>)
    requires forall x :: x in s ==> multiset(s)[x] <= 1
    ensures forall i, j :: 0 <= i < j < |s| ==> s[i] != s[j]
  {
    if s != [] {
      assert s == [s[0]] + s[1..];
      forall x | x in s[1..] ensures multiset(s[1..])[x] <= 1 { assert x in s; }
      Distinct(s[1..]);
      assert s[0] in s[1..] ==> multiset(s)[s[0]] >= 2;
      forall i, j | 0 <= i < j < |s| ensures s[i] != s[j] {
        if i > 0 { assert s[i] == s[1..][i - 1] && s[j] == s[1..][j - 1]; } else { assert s[j] == s[1..][j - 1]; }
      }
    }
  }

  /** Putting the children of one process in another order keeps the forest. */
  lemma ForestReordered(parent: map<Pid, Pid>, children: map<Pid, seq<Pid>>, rank: map<Pid, nat>, p: Pid, s: seq<Pid>)
    requires Forest(parent, children, rank) && p in children && multiset(s) == multiset(children[p])
    ensures Forest(parent, children[p := s], rank)
  {
    OccursOnce(children[p]);
    forall x | x in s ensures x in children[p] && multiset(s)[x] <= 1 { assert x in multiset(s); }
    Distinct(s);
    forall x | x in children[p] ensures x in s { assert x in multiset(s); }
    forall i | 0 <= i < |s| ensures s[i] in parent && parent[s[i]] == p { assert s[i] in s; }
  }

  // ---------- a new relation ----------

  function WithChild(children: map<Pid, seq<Pid>>, p: Pid, c: Pid): map<Pid, seq<Pid>> {
    children[p := (if p in children then children[p] else []) + [c]]
  }

  /** The new child is the first to be offered a message, before the others in their order. */
  lemma NewChildFirst(children: map<Pid, seq<Pid>>, p: Pid, c: Pid)
    ensures
      var before := if p in children then Reverse(children[p]) else [];
      p in WithChild(children, p, c) && Reverse(WithChild(children, p, c)[p]) == [c] + before
  {
    var list := if p in children then children[p] else [];
    assert (list + [c])[..|list|] == list && Reverse([]) == [];
  }

  /** The child has no parent yet, and is not the new parent or above it. */
  ghost predicate Attaches(parent: map<Pid, Pid>, rank: map<Pid, nat>, p: Pid, c: Pid)
    requires Ranked(parent, rank)
  {
    c !in parent && c != p && c !in Ancestors(parent, rank, p)
  }

  ghost predicate Below(parent: map<Pid, Pid>, rank: map<Pid, nat>, c: Pid, x: Pid)
    requires Ranked(parent, rank)
  {
    x == c || c in Ancestors(parent, rank, x)
  }

  /** The child comes with everything below it: all of that moves down beneath the new parent. */
  lemma ForestGrows(parent: map<Pid, Pid>, children: map<Pid, seq<Pid>>, rank: map<Pid, nat>, p: Pid, c: Pid)
    returns (r: map<Pid, nat>)
    requires Forest(parent, children, rank) && Attaches(parent, rank, p, c)
    ensures Forest(parent[c := p], WithChild(children, p, c), r)
  {
    var depth := if p in rank then rank[p] else 0;
    r := map x | x in rank.Keys + {p, c} ::
      (if x in rank then rank[x] else 0) + (if Below(parent, rank, c, x) then depth + 1 else 0);
    forall y | y in parent ensures Below(parent, rank, c, y) <==> (y == c || Below(parent, rank, c, parent[y])) {
      assert Ancestors(parent, rank, y) == [parent[y]] + Ancestors(parent, rank, parent[y]);
    }
    hide Ancestors;
    RanksGrow(parent, rank, p, c, depth, r);
    hide Below;
    ListsGrow(parent, children, rank, p, c, r);
  }

  lemma RanksGrow(parent: map<Pid, Pid>, rank: map<Pid, nat>, p: Pid, c: Pid, depth: nat, r: map<Pid, nat>)
    requires Ranked(parent, rank)
    requires forall y :: y in parent ==> (Below(parent, rank, c, y) <==> (y == c || Below(parent, rank, c, parent[y])))
    requires Attaches(parent, rank, p, c) && depth == if p in rank then rank[p] else 0
    requires r.Keys == rank.Keys + {p, c}
    requires forall x :: x in r ==>
      r[x] == (if x in rank then rank[x] else 0) + (if Below(parent, rank, c, x) then depth + 1 else 0)
    ensures Ranked(parent[c := p], r)
  {
    assert Below(parent, rank, c, c) && !Below(parent, rank, c, p);
    hide Below, Attaches;
  }

  lemma ListsGrow(parent: map<Pid, Pid>, children: map<Pid, seq<Pid>>, rank: map<Pid, nat>, p: Pid, c: Pid,
      r: map<Pid, nat>)
    requires Forest(parent, children, rank) && c !in parent
    requires r.Keys == rank.Keys + {p, c}
    requires Ranked(parent[c := p], r)
    ensures Forest(parent[c := p], WithChild(children, p, c), r)
  {
    hide Ranked;
    var children' := WithChild(children, p, c);
    var list := if p in children then children[p] else [];
    assert forall i :: 0 <= i < |list| ==> list[i] in parent;
    assert forall q :: q in children' ==> children'[q] == if q == p then list + [c] else children[q];
    assert children'.Keys == children.Keys + {p};
    hide WithChild;
  }

  lemma {:induction false} AncestorsFall(parent: map<Pid, Pid>, rank: map<Pid, nat>, p: Pid, r: map<Pid, nat>, a: Pid)
    requires Ranked(parent, rank)
    requires Ranked(parent, r)
    requires a in Ancestors(parent, rank, p)
    ensures p in r && a in r && r[a] < r[p]
    decreases if p in rank then rank[p] + 1 else 0
  {
    if a != parent[p] { AncestorsFall(parent, rank, parent[p], r, a); }
  }

  lemma ForestBreaks(parent: map<Pid, Pid>, children: map<Pid, seq<Pid>>, rank: map<Pid, nat>, p: Pid, c: Pid,
      r: map<Pid, nat>)
    requires Forest(parent, children, rank) && !Attaches(parent, rank, p, c)
    ensures !Forest(parent[c := p], WithChild(children, p, c), r)
  {
    var parent', children' := parent[c := p], WithChild(children, p, c);
    assert parent'[c] == p;
    if c in parent {
      var q := parent[c];
      var i :| 0 <= i < |children[q]| && children[q][i] == c;
      assert children'[q][i] == c && (q == p ==> children'[p][|children[p]|] == c);
    } else if c != p && Ranked(parent', r) {
      assert forall x :: x in parent ==> parent'[x] == parent[x];
      AncestorsFall(parent, rank, p, r, c);
    }
  }

  class Base {
    var childParentRelation: map<Pid, Pid>
    var parentChildRelation: map<Pid, seq<Pid>>
    var signals: seq<Signal>
    ghost var rank: map<Pid, nat>

    ghost predicate Valid()
      reads this
    {
      Forest(childParentRelation, parentChildRelation, rank)
    }

    constructor ()
      ensures Valid() && childParentRelation == map[] && parentChildRelation == map[] && signals == []
    {
      childParentRelation, parentChildRelation, signals, rank := map[], map[], [], map[];
    }

    /** The child is entered below its parent; without one of them nothing happens. The relations are still
      * a forest exactly if the child had no parent yet and is not the parent or an ancestor of it, as it is
      * for the new processes the callers enter. */
    method AddRelation(parent: Option<Pid>, child: Option<Pid>)
      requires Valid()
      modifies this
      ensures signals == old(signals)
      ensures parent.None? || child.None? ==>
        Valid() && childParentRelation == old(childParentRelation) && parentChildRelation == old(parentChildRelation)
      ensures parent.Some? && child.Some? ==>
        var p, c := parent.value, child.value;
        && childParentRelation == old(childParentRelation)[c := p]
        && parentChildRelation == WithChild(old(parentChildRelation), p, c)
        && (Valid() <==> old(Attaches(childParentRelation, rank, p, c)))
        && (!Valid() ==> forall r :: !Forest(childParentRelation, parentChildRelation, r))
    {
      if parent.None? || child.None? {
        return;
      }
      var p, c := parent.value, child.value;
      ghost var before, stacks, ranks := childParentRelation, parentChildRelation, rank;
      childParentRelation := childParentRelation[c := p];
      if p !in parentChildRelation {
        parentChildRelation := parentChildRelation[p := [c]];
      } else {
        parentChildRelation := parentChildRelation[p := parentChildRelation[p] + [c]];
      }
      assert [] + [c] == [c];
      hide Forest, WithChild, Attaches;
      if Attaches(before, ranks, p, c) {
        rank := ForestGrows(before, stacks, ranks, p, c);
      } else {
        forall r ensures !Forest(childParentRelation, parentChildRelation, r) {
          ForestBreaks(before, stacks, ranks, p, c, r);
        }
      }
    }

    method TrySendMessage(from: Pid, target: Pid, message: string, callable: Callable) returns (sent: bool)
      modifies this`signals
      ensures sent <==> Accepts(callable, target, message)
      ensures
        var s := Reaction(from, target, message, callable(target));
        sent == s.Some? && signals == if sent then old(signals) + [s.value] else old(signals)
      ensures sent ==> Reaches(signals[|old(signals)|], from, target, message, callable(target))
    {
      if Accepts(callable, target, message) { ReactionReaches(from, target, message, callable(target)); }
      hide Reaches;
      var events := callable(target);
      for i := 0 to |events|
        invariant signals == old(signals)
        invariant Reaction(from, target, message, events) == Reaction(from, target, message, events[i..])
      {
        assert events[i..][1..] == events[i + 1..];
        if events[i] == message {
          signals := signals + [Direct(target, message)];
          return true;
        }
        if events[i] == ONFORWARD {
          signals := signals + [Forward(target, from, message)];
          return true;
        }
      }
      sent := false;
    }

    /** Offers the message to the children from the top of the stack down. */
    method PropagateChildMessage(current: Pid, message: string, callable: Callable) returns (sent: bool)
      requires Valid()
      modifies this`signals, this`parentChildRelation
      ensures Valid()
      ensures current !in old(parentChildRelation) ==>
                !sent && signals == old(signals) && parentChildRelation == old(parentChildRelation)
      ensures current in old(parentChildRelation) ==>
                var stack := old(parentChildRelation)[current];
                var k := FirstAccepting(callable, Reverse(stack), message);
                && sent == (k < |stack|)
                && parentChildRelation == old(parentChildRelation)[current := AfterOffer(callable, stack, message)]
                && (if sent then
                      var target := Reverse(stack)[k];
                      && signals == old(signals) + [Reaction(current, target, message, callable(target)).value]
                      && Reaches(signals[|old(signals)|], current, target, message, callable(target))
                    else signals == old(signals))
    {
      hide FirstAccepting, Reverse, AfterOffer, Reaction, Forest, Reaches;
      if current !in parentChildRelation {
        return false;
      }
      var children;
      sent, children := OfferDown(current, parentChildRelation[current], message, callable);
      OfferKeepsChildren(callable, parentChildRelation[current], message);
      ForestReordered(childParentRelation, parentChildRelation, rank, current, children);
      parentChildRelation := parentChildRelation[current := children];
    }

    /** The loop over the stack: children are popped, tried, and put back once one took the message. */
    method OfferDown(current: Pid, stack: seq<Pid>, message: string, callable: Callable)
      returns (sent: bool, children: seq<Pid>)
      modifies this`signals
      ensures children == AfterOffer(callable, stack, message)
      ensures
        var k := FirstAccepting(callable, Reverse(stack), message);
        && sent == (k < |stack|)
        && (if sent then
              var target := Reverse(stack)[k];
              && signals == old(signals) + [Reaction(current, target, message, callable(target)).value]
              && Reaches(signals[|old(signals)|], current, target, message, callable(target))
            else signals == old(signals))
    {
      hide AfterOffer, Reverse, FirstAccepting, Reaction, Accepts, Reaches;
      children := stack;
      var removed: seq<Pid> := [];
      while |children| > 0
        invariant |children| + |removed| == |stack|
        invariant children == stack[..|children|] && removed == Reverse(stack)[..|removed|]
        invariant signals == old(signals)
        invariant |removed| <= FirstAccepting(callable, Reverse(stack), message)
        decreases |children|
      {
        var top := children[|children| - 1];
        children := children[..|children| - 1];
        ghost var k := |removed|;
        assert top == stack[|stack| - 1 - k] == Reverse(stack)[k];
        sent := TrySendMessage(current, top, message, callable);
        if sent {
          OfferAccepted(callable, stack, message, k);
          children := children + removed;
          children := children + [top];
          return;
        }
        removed := removed + [top];
        assert removed == Reverse(stack)[..k + 1];
      }
      OfferRefused(callable, stack, message);
      children := children + removed;
      sent := false;
    }

    /** Offers the message to the ancestors, nearest first, and never to the sender itself. */
    method PropagateParentMessage(process: Option<Pid>, message: string, callable: Callable) returns (sent: bool)
      requires Valid()
      modifies this`signals
      ensures Valid()
      ensures process.None? ==> !sent && signals == old(signals)
      ensures process.Some? ==>
                var above := Ancestors(childParentRelation, rank, process.value);
                var k := FirstAccepting(callable, above, message);
                && sent == (k < |above|)
                && (if sent then
                      var target := above[k];
                      && signals == old(signals) + [Reaction(process.value, target, message, callable(target)).value]
                      && Reaches(signals[|old(signals)|], process.value, target, message, callable(target))
                    else signals == old(signals))
    {
      hide Reaches, Reaction;
      if process.None? {
        return false;
      }
      ghost var above := Ancestors(childParentRelation, rank, process.value);
      ghost var p := process.value;
      ghost var i: nat := 0;
      var parent := if process.value in childParentRelation then Some(childParentRelation[process.value]) else None;
      while parent.Some?
        invariant i <= |above| && above[i..] == Ancestors(childParentRelation, rank, p)
        invariant parent == if p in childParentRelation then Some(childParentRelation[p]) else None
        invariant i <= FirstAccepting(callable, above, message)
        invariant signals == old(signals)
        decreases |above| - i
      {
        assert above[i..][0] == parent.value;
        sent := TrySendMessage(process.value, parent.value, message, callable);
        if sent {
          return true;
        }
        p := parent.value;
        assert above[i..][1..] == above[i + 1..];
        i := i + 1;
        parent := if parent.value in childParentRelation then Some(childParentRelation[parent.value]) else None;
      }
      sent := false;
    }
  }
}
