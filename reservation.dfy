/** The decision logic of web_service/reservation.py: which time-slot
    button the Yelp flow settles on, the alternatives text it reports
    otherwise, the `HHMM` and party-size strings it builds, and how the
    contact form's errors are gathered. A button is reduced to its label
    and whether it carries the `disabled` attribute. */
module Reservation {
  import opened Wrappers
  import opened Text
  import opened Clock
  import opened Utils

  // ---------------------------------------------------------------------
  // Slots and the traversal order
  // ---------------------------------------------------------------------

  /** A time-slot button: its (stripped) label and whether it is disabled. */
  datatype Slot = Slot(text: string, disabled: bool)

  /** How the search loop treats a slot, given the requested time. */
  datatype Kind = Unusable | Earlier | Same | Later

  const BaseIndex: nat := 3
  const DownwardOrder: seq<nat> := [3, 2, 4, 1, 5, 0, 6]
  const UpwardOrder: seq<nat> := [3, 4, 2, 5, 1, 6, 0]

  predicate Distinct(s: seq<nat>) {
    forall p, q :: 0 <= p < q < |s| ==> s[p] != s[q]
  }

  /** A slot whose label does not parse is skipped; so is a disabled one;
      the others are placed against the requested time. */
  function SlotKind(slot: Slot, requested: nat): Kind {
    match ParseLabel(slot.text)
    case None => Unusable
    case Some(t) =>
      if slot.disabled then Unusable
      else if t == requested then Same
      else if t < requested then Earlier
      else Later
  }

  /** The slot at the base index exists, its label parses, and it is later
      than the requested time: the search then walks downwards first. */
  predicate PivotLater(slots: seq<Slot>, requested: nat) {
    BaseIndex < |slots| && ParseLabel(slots[BaseIndex].text).Some?
    && ParseLabel(slots[BaseIndex].text).value > requested
  }

  /** Where `x` first occurs in `s`, or `|s|` when it does not. */
  function Position(s: seq<nat>, x: nat): (k: nat)
    ensures k <= |s|
    ensures k < |s| ==> s[k] == x
    ensures k == |s| ==> x !in s
  {
    if s == [] then 0
    else if s[0] == x then 0
    else 1 + Position(s[1..], x)
  }

  /** The entries of `r` occur in `s` in the order they have in `r`. */
  predicate KeepsOrder(r: seq<nat>, s: seq<nat>) {
    forall p, q :: 0 <= p < q < |r| ==> Position(s, r[p]) < Position(s, r[q])
  }

  /** Prepending the head of a duplicate-free `order` (or nothing) to an
      order-keeping selection of its tail keeps the order of `order`. */
  lemma KeepsOrderCons(order: seq<nat>, head: seq<nat>, rest: seq<nat>)
    requires order != [] && (head == [] || head == [order[0]])
    requires forall x :: x in rest ==> x in order[1..]
    requires Distinct(order) ==> KeepsOrder(rest, order[1..])
    ensures Distinct(order) ==> KeepsOrder(head + rest, order)
  {
    if !Distinct(order) {
      return;
    }
    var r := head + rest;
    forall p, q | 0 <= p < q < |r|
      ensures Position(order, r[p]) < Position(order, r[q])
    {
      var d := |head|;
      assert r[q] == rest[q - d] && r[q] in order[1..];
      if p >= d {
        assert r[p] == rest[p - d] && r[p] in order[1..];
      }
    }
  }

  /** `[i for i in order if i < n]`: the entries below `n`, in their order. */
  function Below(order: seq<nat>, n: nat): (r: seq<nat>)
    ensures forall q :: 0 <= q < |r| ==> r[q] < n
    ensures forall x: nat :: x in r <==> x in order && x < n
    ensures Distinct(order) ==> Distinct(r)
    ensures Distinct(order) ==> KeepsOrder(r, order)
  {
    if order == [] then []
    else
      var rest := Below(order[1..], n);
      var head := if order[0] < n then [order[0]] else [];
      assert order == [order[0]] + order[1..];
      assert Distinct(order) ==> order[0] !in order[1..] && Distinct(order[1..]) by {
        if Distinct(order) {
          forall p, q | 0 <= p < q < |order[1..]|
            ensures order[1..][p] != order[1..][q]
          {
            assert order[1..][p] == order[p + 1] && order[1..][q] == order[q + 1];
          }
        }
      }
      KeepsOrderCons(order, head, rest);
      head + rest
  }

  /** How far index `i` lies from the base index. */
  function Distance(i: nat): nat {
    if i < BaseIndex then BaseIndex - i else i - BaseIndex
  }

  /** The order the search starts from: downwards first when the slot at
      the base index is later than the request, upwards first otherwise.
      Either lists each of the indices 0 to 6 once, starting from the base
      index; they part at their second entry. */
  function BaseOrder(downwardFirst: bool): (order: seq<nat>)
    ensures |order| == |DownwardOrder| && Distinct(order)
    ensures forall i: nat :: i in order <==> i < |DownwardOrder|
    ensures order[0] == BaseIndex
    ensures order[1] == if downwardFirst then 2 else 4
    ensures forall i, j :: 0 <= i < j < |order| ==> Distance(order[i]) <= Distance(order[j])
    ensures forall i, j :: 0 <= i < j < |order| && Distance(order[i]) == Distance(order[j]) ==>
              (order[i] < BaseIndex <==> downwardFirst)
  {
    var order := if downwardFirst then DownwardOrder else UpwardOrder;
    assert downwardFirst ==> order[0] == 3 && order[1] == 2 && order[2] == 4 && order[3] == 1
                             && order[4] == 5 && order[5] == 0 && order[6] == 6;
    assert !downwardFirst ==> order[0] == 3 && order[1] == 4 && order[2] == 2 && order[3] == 5
                              && order[4] == 1 && order[5] == 6 && order[6] == 0;
    order
  }

  /** Filtering keeps the entries below the bound, in order: the first two
      survive when both are. */
  lemma BelowHeads(order: seq<nat>, n: nat)
    requires |order| >= 2 && order[0] < n && order[1] < n
    ensures |Below(order, n)| >= 2 && Below(order, n)[0] == order[0] && Below(order, n)[1] == order[1]
  {
    assert order[1..][0] == order[1];
  }

  /** Nothing is dropped when every entry is below the bound. */
  lemma {:induction false} BelowAll(order: seq<nat>, n: nat)
    requires forall q :: 0 <= q < |order| ==> order[q] < n
    ensures Below(order, n) == order
  {
    if order != [] {
      BelowAll(order[1..], n);
    }
  }

  lemma BelowHead(order: seq<nat>, n: nat)
    requires |order| >= 1 && order[0] < n
    ensures |Below(order, n)| >= 1 && Below(order, n)[0] == order[0]
  {
  }

  /** Filtering an outward order keeps it outward, with the same tie-break. */
  lemma OutwardBelow(base: seq<nat>, n: nat, downwardFirst: bool)
    requires forall i, j :: 0 <= i < j < |base| ==> Distance(base[i]) <= Distance(base[j])
    requires forall i, j :: 0 <= i < j < |base| && Distance(base[i]) == Distance(base[j]) ==>
               (base[i] < BaseIndex <==> downwardFirst)
    requires Distinct(base)
    ensures forall p, q :: 0 <= p < q < |Below(base, n)| ==>
              Distance(Below(base, n)[p]) <= Distance(Below(base, n)[q])
    ensures forall p, q :: 0 <= p < q < |Below(base, n)| && Distance(Below(base, n)[p]) == Distance(Below(base, n)[q]) ==>
              (Below(base, n)[p] < BaseIndex <==> downwardFirst)
  {
    var r := Below(base, n);
    forall p, q | 0 <= p < q < |r|
      ensures Distance(r[p]) <= Distance(r[q])
      ensures Distance(r[p]) == Distance(r[q]) ==> (r[p] < BaseIndex <==> downwardFirst)
    {
      var i, j := Position(base, r[p]), Position(base, r[q]);
      assert r[p] in base && r[q] in base;
    }
  }

  /** The indices the search visits, in order: outwards from the base
      index, the lower of two equally distant indices first exactly when
      the walk goes downwards first. */
  function TraversalOrder(slots: seq<Slot>, requested: nat): (order: seq<nat>)
    ensures Distinct(order)
    ensures forall q :: 0 <= q < |order| ==> order[q] < |slots|
    ensures forall i: nat :: i in order <==> i < |slots| && i < |DownwardOrder|
    ensures BaseIndex < |slots| ==> |order| > 0 && order[0] == BaseIndex
    ensures BaseIndex + 1 < |slots| ==> |order| > 1 && (order[1] < BaseIndex <==> PivotLater(slots, requested))
    ensures forall p, q :: 0 <= p < q < |order| ==> Distance(order[p]) <= Distance(order[q])
    ensures forall p, q :: 0 <= p < q < |order| && Distance(order[p]) == Distance(order[q]) ==>
              (order[p] < BaseIndex <==> PivotLater(slots, requested))
  {
    var base := BaseOrder(PivotLater(slots, requested));
    OutwardBelow(base, |slots|, PivotLater(slots, requested));
    if BaseIndex + 1 < |slots| then
      BelowHeads(base, |slots|);
      Below(base, |slots|)
    else if BaseIndex < |slots| then
      BelowHead(base, |slots|);
      Below(base, |slots|)
    else Below(base, |slots|)
  }

  // ---------------------------------------------------------------------
  // The search: specification
  // ---------------------------------------------------------------------

  /** The kinds of the slots at the given indices, in that order. */
  function KindsOf(slots: seq<Slot>, indices: seq<nat>, requested: nat): (ks: seq<Kind>)
    requires forall q :: 0 <= q < |indices| ==> indices[q] < |slots|
    ensures |ks| == |indices|
  {
    if indices == [] then []
    else [SlotKind(slots[indices[0]], requested)] + KindsOf(slots, indices[1..], requested)
  }

  lemma {:induction false} KindOfAt(slots: seq<Slot>, indices: seq<nat>, requested: nat, q: nat)
    requires forall q :: 0 <= q < |indices| ==> indices[q] < |slots|
    requires q < |indices|
    ensures KindsOf(slots, indices, requested)[q] == SlotKind(slots[indices[q]], requested)
  {
    if q > 0 {
      KindOfAt(slots, indices[1..], requested, q - 1);
    }
  }

  /** The kinds of the visited slots, in traversal order. */
  function Visits(slots: seq<Slot>, requested: nat): (ks: seq<Kind>)
    ensures |ks| == |TraversalOrder(slots, requested)|
  {
    KindsOf(slots, TraversalOrder(slots, requested), requested)
  }

  lemma VisitAt(slots: seq<Slot>, requested: nat, q: nat)
    requires q < |Visits(slots, requested)|
    ensures Visits(slots, requested)[q] == SlotKind(slots[TraversalOrder(slots, requested)[q]], requested)
  {
    KindOfAt(slots, TraversalOrder(slots, requested), requested, q);
  }

  /** Position of the first `k` in `ks`, or `|ks|` when there is none. */
  function FirstKind(ks: seq<Kind>, k: Kind): (p: nat)
    ensures p <= |ks|
    ensures p < |ks| ==> ks[p] == k
    ensures forall q :: 0 <= q < p ==> ks[q] != k
  {
    if ks == [] then 0
    else if ks[0] == k then 0
    else 1 + FirstKind(ks[1..], k)
  }

  /** Position `p` holds a `k` and no earlier position does. */
  predicate FirstAt(ks: seq<Kind>, p: nat, k: Kind) {
    p < |ks| && ks[p] == k && forall q :: 0 <= q < p ==> ks[q] != k
  }

  /** The outcome of the search: an available slot at exactly the requested
      time, or the nearest earlier and later alternatives found. */
  datatype Resolution = Exact(index: nat) | Alternatives(left: Option<nat>, right: Option<nat>)

  /** The slot at traversal position `p`, if that position is in range. */
  function FoundAt(order: seq<nat>, p: nat): Option<nat> {
    if p < |order| then Some(order[p]) else None
  }

  /** The decision reached by walking `order` and meeting the kinds `ks`:
      the walk stops at the first exact slot, or right after the second of
      the two alternatives, so an exact slot is reached only if it comes
      before at least one of them. */
  function Decide(order: seq<nat>, ks: seq<Kind>): Resolution
    requires |order| == |ks|
  {
    var e, l, g := FirstKind(ks, Same), FirstKind(ks, Earlier), FirstKind(ks, Later);
    if e < |ks| && (e < l || e < g) then Exact(order[e])
    else Alternatives(FoundAt(order, l), FoundAt(order, g))
  }

  /** What the slot search decides for a page and a requested time. */
  function Resolve(slots: seq<Slot>, requested: nat): Resolution {
    Decide(TraversalOrder(slots, requested), Visits(slots, requested))
  }

  // ---------------------------------------------------------------------
  // The search loop
  // ---------------------------------------------------------------------

  /** The decision where the walk meets its first exact slot before having
      both alternatives. */
  lemma DecideAtExact(order: seq<nat>, ks: seq<Kind>, p: nat)
    requires |order| == |ks| && FirstAt(ks, p, Same)
    requires !(FirstKind(ks, Earlier) < p && FirstKind(ks, Later) < p)
    ensures Decide(order, ks) == Exact(order[p])
  {
    assert FirstKind(ks, Same) == p;
  }

  /** The decision where the walk ends, early or at the end of the order,
      without having met an exact slot. */
  lemma DecideWithoutExact(order: seq<nat>, ks: seq<Kind>, p: nat)
    requires |order| == |ks| && p <= |ks| && (forall q :: 0 <= q < p ==> ks[q] != Same)
    requires p == |ks| || (FirstKind(ks, Earlier) < p && FirstKind(ks, Later) < p)
    ensures Decide(order, ks) == Alternatives(FoundAt(order, FirstKind(ks, Earlier)), FoundAt(order, FirstKind(ks, Later)))
  {
  }

  /** One step of the walk: a label that does not parse is skipped, so is
      a disabled slot, and the others are compared with the requested time. */
  method ClassifySlot(slot: Slot, requested: nat) returns (kind: Kind)
    ensures kind == SlotKind(slot, requested)
  {
    var parsed := ParseLabel(slot.text);
    if parsed.None? {
      return Unusable;
    }
    if slot.disabled {
      return Unusable;
    }
    var t := parsed.value;
    if t == requested {
      kind := Same;
    } else if t < requested {
      kind := Earlier;
    } else {
      kind := Later;
    }
  }

  /** The slot search loop over any order of slot indices: the first
      available slot at the requested time wins; otherwise the first earlier
      and the first later available slot are kept, and the walk stops once
      it has both. */
  method WalkSlots(slots: seq<Slot>, order: seq<nat>, requested: nat, ghost ks: seq<Kind>) returns (r: Resolution)
    requires forall q :: 0 <= q < |order| ==> order[q] < |slots|
    requires |ks| == |order|
    requires forall q {:trigger SlotKind(slots[order[q]], requested)} :: 0 <= q < |order| ==> ks[q] == SlotKind(slots[order[q]], requested)
    ensures r == Decide(order, ks)
  {
    ghost var l, g := FirstKind(ks, Earlier), FirstKind(ks, Later);
    var left: Option<nat> := None;
    var right: Option<nat> := None;
    for p := 0 to |order|
      invariant forall q :: 0 <= q < p ==> ks[q] != Same
      invariant left == (if l < p then Some(order[l]) else None)
      invariant right == (if g < p then Some(order[g]) else None)
      invariant !(l < p && g < p)
    {
      var index := order[p];
      var slot := slots[index];
      var kind := ClassifySlot(slot, requested);
      if kind == Unusable {
        continue;
      }
      if kind == Same {
        DecideAtExact(order, ks, p);
        return Exact(index);
      } else if kind == Earlier && left.None? {
        left := Some(index);
      } else if kind == Later && right.None? {
        right := Some(index);
      }
      if left.Some? && right.Some? {
        DecideWithoutExact(order, ks, p + 1);
        return Alternatives(left, right);
      }
    }
    DecideWithoutExact(order, ks, |order|);
    return Alternatives(left, right);
  }

  /** The slot search: walk the slots in traversal order. */
  method ResolveSlot(slots: seq<Slot>, requested: nat) returns (r: Resolution)
    ensures r == Resolve(slots, requested)
  {
    var order := TraversalOrder(slots, requested);
    ghost var ks := Visits(slots, requested);
    forall q | 0 <= q < |order|
      ensures ks[q] == SlotKind(slots[order[q]], requested)
    {
      VisitAt(slots, requested, q);
    }
    r := WalkSlots(slots, order, requested, ks);
  }

  // ---------------------------------------------------------------------
  // Properties of the search
  // ---------------------------------------------------------------------

  /** A slot whose label does not parse, or that is disabled, is never
      chosen: an exact slot is available at the requested time, an earlier
      alternative is available and strictly earlier, a later one available
      and strictly later. */
  lemma ResolvedSlotsAreUsable(slots: seq<Slot>, requested: nat)
    ensures var r := Resolve(slots, requested);
      && (r.Exact? ==> r.index < |slots| && SlotKind(slots[r.index], requested) == Same)
      && (r.Alternatives? && r.left.Some? ==>
            r.left.value < |slots| && SlotKind(slots[r.left.value], requested) == Earlier)
      && (r.Alternatives? && r.right.Some? ==>
            r.right.value < |slots| && SlotKind(slots[r.right.value], requested) == Later)
  {
    var ks := Visits(slots, requested);
    var e, l, g := FirstKind(ks, Same), FirstKind(ks, Earlier), FirstKind(ks, Later);
    if e < |ks| {
      VisitAt(slots, requested, e);
    }
    if l < |ks| {
      VisitAt(slots, requested, l);
    }
    if g < |ks| {
      VisitAt(slots, requested, g);
    }
  }

  /** A reported exact slot is the first available exact slot in traversal
      order, and it comes before the first earlier or the first later
      alternative. */
  lemma ExactIsFirst(slots: seq<Slot>, requested: nat) returns (p: nat)
    requires Resolve(slots, requested).Exact?
    ensures FirstAt(Visits(slots, requested), p, Same)
    ensures TraversalOrder(slots, requested)[p] == Resolve(slots, requested).index
    ensures (forall q: nat :: q < p ==> !FirstAt(Visits(slots, requested), q, Earlier))
         || (forall q: nat :: q < p ==> !FirstAt(Visits(slots, requested), q, Later))
  {
    var ks := Visits(slots, requested);
    p := FirstKind(ks, Same);
    var l, g := FirstKind(ks, Earlier), FirstKind(ks, Later);
    assert forall q: nat :: FirstAt(ks, q, Earlier) ==> q == l;
    assert forall q: nat :: FirstAt(ks, q, Later) ==> q == g;
  }

  /** A reported earlier alternative is the first available earlier slot in
      traversal order; none is reported only when no visited slot is
      earlier. */
  lemma LeftIsFirst(slots: seq<Slot>, requested: nat) returns (p: nat)
    requires Resolve(slots, requested).Alternatives?
    ensures Resolve(slots, requested).left.Some? ==>
      FirstAt(Visits(slots, requested), p, Earlier)
      && TraversalOrder(slots, requested)[p] == Resolve(slots, requested).left.value
    ensures Resolve(slots, requested).left.None? ==> Earlier !in Visits(slots, requested)
  {
    p := FirstKind(Visits(slots, requested), Earlier);
  }

  /** The same for the later alternative. */
  lemma RightIsFirst(slots: seq<Slot>, requested: nat) returns (p: nat)
    requires Resolve(slots, requested).Alternatives?
    ensures Resolve(slots, requested).right.Some? ==>
      FirstAt(Visits(slots, requested), p, Later)
      && TraversalOrder(slots, requested)[p] == Resolve(slots, requested).right.value
    ensures Resolve(slots, requested).right.None? ==> Later !in Visits(slots, requested)
  {
    p := FirstKind(Visits(slots, requested), Later);
  }

  /** Once an earlier and a later alternative have both been met, the walk
      stops: an exact slot further along the order is never reported. */
  lemma EarlyStop(slots: seq<Slot>, requested: nat, pl: nat, pg: nat)
    requires FirstAt(Visits(slots, requested), pl, Earlier) && FirstAt(Visits(slots, requested), pg, Later)
    requires forall q :: 0 <= q < |Visits(slots, requested)| && (q < pl || q < pg) ==> Visits(slots, requested)[q] != Same
    ensures Resolve(slots, requested).Alternatives?
  {
    var ks := Visits(slots, requested);
    assert FirstKind(ks, Earlier) == pl && FirstKind(ks, Later) == pg;
  }

  /** When the visited slots offer nothing on one side of the request, the
      walk cannot stop early, so an available exact slot among them is
      always found. */
  lemma ExactFoundWhenOneSideEmpty(slots: seq<Slot>, requested: nat, i: nat)
    requires i < |slots| && i < |DownwardOrder| && SlotKind(slots[i], requested) == Same
    requires (forall j :: 0 <= j < |slots| ==> SlotKind(slots[j], requested) != Earlier)
          || (forall j :: 0 <= j < |slots| ==> SlotKind(slots[j], requested) != Later)
    ensures Resolve(slots, requested).Exact?
  {
    var order := TraversalOrder(slots, requested);
    var ks := Visits(slots, requested);
    assert i in order;
    var p :| 0 <= p < |order| && order[p] == i;
    VisitAt(slots, requested, p);
    var l, g := FirstKind(ks, Earlier), FirstKind(ks, Later);
    if l < |ks| {
      VisitAt(slots, requested, l);
    }
    if g < |ks| {
      VisitAt(slots, requested, g);
    }
    DecideExactWhenOneSideMissing(order, ks, p);
  }

  /** A walk that meets an exact slot and lacks one of the two sides
      reaches that slot. */
  lemma DecideExactWhenOneSideMissing(order: seq<nat>, ks: seq<Kind>, p: nat)
    requires |order| == |ks| && p < |ks| && ks[p] == Same
    requires FirstKind(ks, Earlier) == |ks| || FirstKind(ks, Later) == |ks|
    ensures Decide(order, ks).Exact?
  {
    assert FirstKind(ks, Same) <= p;
  }

  /** With at most seven slots every slot is visited, so a missing
      alternative means no available slot on that side anywhere on the
      page. */
  lemma MissingAlternativeMeansNone(slots: seq<Slot>, requested: nat, i: nat)
    requires |slots| <= |DownwardOrder| && i < |slots|
    requires Resolve(slots, requested).Alternatives?
    ensures Resolve(slots, requested).left.None? ==> SlotKind(slots[i], requested) != Earlier
    ensures Resolve(slots, requested).right.None? ==> SlotKind(slots[i], requested) != Later
  {
    var order := TraversalOrder(slots, requested);
    assert i in order;
    var p :| 0 <= p < |order| && order[p] == i;
    VisitAt(slots, requested, p);
    var pl := LeftIsFirst(slots, requested);
    var pg := RightIsFirst(slots, requested);
  }

  /** With seven slots or more nothing is filtered out of the base order. */
  lemma FullOrder(slots: seq<Slot>, requested: nat)
    requires |slots| >= |DownwardOrder|
    ensures TraversalOrder(slots, requested) == BaseOrder(PivotLater(slots, requested))
  {
    BelowAll(BaseOrder(PivotLater(slots, requested)), |slots|);
  }

  /** With five slots and slot 3 not later than the request, the walk is
      3, 4, then 2, 1, 0: the entries of the upward order below five, in
      that order. */
  lemma FiveSlotOrder(slots: seq<Slot>, requested: nat)
    requires |slots| == 5 && !PivotLater(slots, requested)
    ensures TraversalOrder(slots, requested) == [3, 4, 2, 1, 0]
  {
    var order := TraversalOrder(slots, requested);
    assert 0 in order && 1 in order && 2 in order && 4 in order;
    assert |order| == 5;
  }

  /** An evening page: seven half-hourly slots from 7:00 pm to 10:00 pm,
      whatever their exact spelling. */
  predicate EveningPage(slots: seq<Slot>) {
    |slots| == 7 && forall i :: 0 <= i < 7 ==> ParseLabel(slots[i].text) == Some(1140 + 30 * i)
  }

  /** Asking for 8:30 pm when that slot is available finds the slot at the
      base index itself. */
  lemma ResolveExactExample(slots: seq<Slot>)
    requires EveningPage(slots) && !slots[3].disabled
    ensures Resolve(slots, 1230) == Exact(3)
  {
    assert ParseLabel(slots[3].text) == Some(1230);
    VisitAt(slots, 1230, 0);
  }

  /** With the 8:30 pm slot disabled the walk goes upwards (the base slot
      is not later than the request), meets 9:00 pm, then 8:00 pm, and
      stops with those two alternatives. */
  lemma ResolveAlternativesExample(slots: seq<Slot>)
    requires EveningPage(slots) && slots[3].disabled && !slots[2].disabled && !slots[4].disabled
    ensures Resolve(slots, 1230) == Alternatives(Some(2), Some(4))
  {
    EveningUpward(slots);
    EveningKinds(slots);
    var order := TraversalOrder(slots, 1230);
    assert order[0] == 3 && order[1] == 4 && order[2] == 2;
    VisitAt(slots, 1230, 0);
    VisitAt(slots, 1230, 1);
    VisitAt(slots, 1230, 2);
    DecideStopsAtThird(order, Visits(slots, 1230));
  }

  /** On the evening page the slot at the base index is 8:30 pm, which is
      not later than 8:30 pm, so the walk goes upwards first. */
  lemma EveningUpward(slots: seq<Slot>)
    requires EveningPage(slots)
    ensures TraversalOrder(slots, 1230) == UpwardOrder
  {
    assert ParseLabel(slots[3].text) == Some(1230);
    FullOrder(slots, 1230);
  }

  /** With 8:30 pm disabled, 9:00 pm is later and 8:00 pm earlier. */
  lemma EveningKinds(slots: seq<Slot>)
    requires EveningPage(slots) && slots[3].disabled && !slots[2].disabled && !slots[4].disabled
    ensures SlotKind(slots[3], 1230) == Unusable
    ensures SlotKind(slots[4], 1230) == Later
    ensures SlotKind(slots[2], 1230) == Earlier
  {
    assert ParseLabel(slots[4].text) == Some(1260);
    assert ParseLabel(slots[2].text) == Some(1200);
  }

  /** A walk that meets an unusable, a later and an earlier slot stops
      there with those two alternatives. */
  lemma DecideStopsAtThird(order: seq<nat>, ks: seq<Kind>)
    requires |order| == |ks| >= 3 && ks[0] == Unusable && ks[1] == Later && ks[2] == Earlier
    ensures Decide(order, ks) == Alternatives(Some(order[2]), Some(order[1]))
  {
    assert FirstKind(ks, Later) == 1 && FirstKind(ks, Earlier) == 2;
  }

  // ---------------------------------------------------------------------
  // The alternatives text
  // ---------------------------------------------------------------------

  /** `label.upper().replace(":00", "")`. */
  function Display(text: string): string {
    RemoveAll(Upper(text), ":00")
  }

  /** How a time of day reads in the alternatives text: the clock-face
      hour, the minutes only when not on the hour, then "AM" or "PM". */
  function ShortTime(t: nat): string
    requires t < MinutesPerDay
  {
    NatToString(ClockHour(t / 60)) + (if t % 60 == 0 then "" else ":" + Pad2(t % 60))
    + Meridiem(t >= 720)
  }

  /** The short form ends in " AM" before noon and " PM" from noon, and
      shows a colon exactly when the time is not on the hour. */
  lemma ShortTimeShape(t: nat)
    requires t < MinutesPerDay
    ensures var s := ShortTime(t); |s| > 3 && s[|s| - 3..] == Meridiem(t >= 720)
    ensures ':' in ShortTime(t) <==> t % 60 != 0
  {
    var h := NatToString(ClockHour(t / 60));
    assert ':' !in h;
    var s := ShortTime(t);
    assert s[|s| - 3..] == Meridiem(t >= 720);
  }

  /** The message for the alternatives found: listed left before right,
      joined by " or ", or a fixed text when there is none. */
  function AlternativesMessage(shown: seq<string>): string {
    if shown == [] then "No alternative times available" else Join(shown, " or ")
  }

  lemma UpperDigits(s: string)
    requires AllDigits(s)
    ensures Upper(s) == s
  {
  }

  lemma {:induction false} UpperAppend(a: string, b: string)
    ensures Upper(a + b) == Upper(a) + Upper(b)
  {
  }

  function Meridiem(pm: bool): string {
    if pm then " PM" else " AM"
  }

  /** Upper-casing a composed label touches only its meridiem. */
  lemma UpperCompose(hour: nat, minute: nat, pm: bool)
    requires 1 <= hour <= 12 && minute < 60
    ensures Upper(Compose(NatToString(hour), minute, pm))
            == NatToString(hour) + (":" + Pad2(minute) + Meridiem(pm))
  {
    var h, mm := NatToString(hour), Pad2(minute);
    assert Upper(if pm then " pm" else " am") == Meridiem(pm);
    UpperDigits(h);
    UpperDigits(mm);
    UpperAppend(h + ":" + mm, if pm then " pm" else " am");
    UpperAppend(h + ":", mm);
    UpperAppend(h, ":");
  }

  /** Removing ":00" from an upper-cased label drops a zero minute and
      nothing else. */
  lemma RemoveZeroMinute(h: string, minute: nat, pm: bool)
    requires AllDigits(h) && minute < 60
    ensures RemoveAll(h + (":" + Pad2(minute) + Meridiem(pm)), ":00")
            == h + (if minute == 0 then "" else ":" + Pad2(minute)) + Meridiem(pm)
  {
    var mm, suffix := Pad2(minute), Meridiem(pm);
    assert ':' !in h;
    RemoveAllSkips(h, ":" + mm + suffix, ":00");
    assert ':' !in suffix;
    if minute == 0 {
      assert ":" + mm + suffix == ":00" + suffix;
      RemoveAllDrops(suffix, ":00");
      RemoveAllSkips(suffix, [], ":00");
      assert suffix + [] == suffix;
    } else {
      var rest := ":" + mm + suffix;
      assert rest[..3] == ":" + mm;
      assert rest[1..] == mm + suffix;
      assert ':' !in mm + suffix;
      RemoveAllSkips(mm + suffix, [], ":00");
      assert mm + suffix + [] == mm + suffix;
    }
  }

  /** The short form of a time named on the 12-hour clock. */
  lemma ShortTimeOfClock(hour: nat, minute: nat, pm: bool)
    requires 1 <= hour <= 12 && minute < 60
    ensures ShortTime(ClockMinutes(hour, minute, pm))
            == NatToString(hour) + (if minute == 0 then "" else ":" + Pad2(minute)) + Meridiem(pm)
  {
    var t := ClockMinutes(hour, minute, pm);
    var h24 := hour % 12 + (if pm then 12 else 0);
    assert t == h24 * 60 + minute;
    assert t / 60 == h24 && t % 60 == minute;
    assert ClockHour(h24) == hour;
  }

  /** Displaying a label that parses gives the short form of its time: the
      upper-casing and ":00" removal only ever touch the meridiem and a
      zero minute. */
  lemma DisplayIsShortTime(text: string)
    requires ParseLabel(text).Some?
    ensures Display(text) == ShortTime(ParseLabel(text).value)
  {
    var hour, minute, pm := ParseDecompose(text);
    UpperCompose(hour, minute, pm);
    RemoveZeroMinute(NatToString(hour), minute, pm);
    ShortTimeOfClock(hour, minute, pm);
  }

  /** The time of a slot whose label parses. */
  function SlotTime(slot: Slot): (t: nat)
    requires ParseLabel(slot.text).Some?
    ensures t < MinutesPerDay
  {
    ParseLabel(slot.text).value
  }

  /** Builds the alternatives text as the script does, by appending the
      displayed labels of the left and then the right candidate. */
  method AlternativesText(slots: seq<Slot>, left: Option<nat>, right: Option<nat>) returns (text: string)
    requires left.Some? ==> left.value < |slots| && ParseLabel(slots[left.value].text).Some?
    requires right.Some? ==> right.value < |slots| && ParseLabel(slots[right.value].text).Some?
    ensures text == AlternativesMessage(
      (if left.Some? then [ShortTime(SlotTime(slots[left.value]))] else [])
      + (if right.Some? then [ShortTime(SlotTime(slots[right.value]))] else []))
  {
    var alternatives: seq<string> := [];
    if left.Some? {
      DisplayIsShortTime(slots[left.value].text);
      alternatives := alternatives + [Display(slots[left.value].text)];
    }
    if right.Some? {
      DisplayIsShortTime(slots[right.value].text);
      alternatives := alternatives + [Display(slots[right.value].text)];
    }
    text := if |alternatives| > 0 then Join(alternatives, " or ") else "No alternative times available";
  }

  // ---------------------------------------------------------------------
  // The availability check of make_reservation
  // ---------------------------------------------------------------------

  /** make_reservation's result: whether the slot is available (or booked),
      the confirmation link, the alternatives text and the error text. */
  datatype Report = Report(available: bool, confirmation: Option<string>,
                           alternatives: Option<string>, error: Option<string>)

  /** The short forms of the alternatives a resolution carries. */
  function ShownAlternatives(slots: seq<Slot>, requested: nat, left: Option<nat>, right: Option<nat>): seq<string>
    requires left.Some? ==> left.value < |slots| && SlotKind(slots[left.value], requested) == Earlier
    requires right.Some? ==> right.value < |slots| && SlotKind(slots[right.value], requested) == Later
  {
    (if left.Some? then [ShortTime(SlotTime(slots[left.value]))] else [])
    + (if right.Some? then [ShortTime(SlotTime(slots[right.value]))] else [])
  }

  /** What the slot search of make_reservation reports without booking:
      an empty page is an error; an exact slot reports availability;
      otherwise the alternatives text. */
  function SearchReport(slots: seq<Slot>, requested: nat): (r: Report)
    ensures r.confirmation.None?
    ensures r.error.Some? <==> slots == []
    ensures r.alternatives.Some? <==> slots != [] && !r.available
    ensures r.available ==> exists i {:trigger slots[i]} :: 0 <= i < |slots| && SlotKind(slots[i], requested) == Same
  {
    if slots == [] then Report(false, None, None, Some("No time slot buttons found on the page."))
    else
      var r := Resolve(slots, requested);
      ResolvedSlotsAreUsable(slots, requested);
      if r.Exact? then Report(true, None, None, None)
      else Report(false, None, Some(AlternativesMessage(ShownAlternatives(slots, requested, r.left, r.right))), None)
  }

  /** The slot search of make_reservation, for a requested label that
      parses. */
  method SearchSlots(slots: seq<Slot>, requestedLabel: string) returns (report: Report)
    requires ParseLabel(requestedLabel).Some?
    ensures report == SearchReport(slots, ParseLabel(requestedLabel).value)
  {
    if |slots| == 0 {
      return Report(false, None, None, Some("No time slot buttons found on the page."));
    }
    var requested := ParseLabel(requestedLabel).value;
    var resolution := ResolveSlot(slots, requested);
    if resolution.Exact? {
      return Report(true, None, None, None);
    }
    ResolvedSlotsAreUsable(slots, requested);
    var text := AlternativesText(slots, resolution.left, resolution.right);
    return Report(false, None, Some(text), None);
  }

  /** On the evening page with 8:30 pm disabled, the alternatives read
      "8 PM or 9 PM". */
  lemma SearchReportExample(slots: seq<Slot>)
    requires EveningPage(slots) && slots[3].disabled && !slots[2].disabled && !slots[4].disabled
    ensures SearchReport(slots, 1230) == Report(false, None, Some("8 PM or 9 PM"), None)
  {
    ResolveAlternativesExample(slots);
    ReportOfAlternatives(slots, 1230, Some(2), Some(4));
    ShownExample(slots[2], slots[4]);
    assert [slots[2], slots[4]][0] == slots[2];
    assert ShownAlternatives(slots, 1230, Some(2), Some(4)) == ShownAlternatives([slots[2], slots[4]], 1230, Some(0), Some(1));
  }

  lemma ShownExample(a: Slot, b: Slot)
    requires ParseLabel(a.text) == Some(1200) && ParseLabel(b.text) == Some(1260) && !a.disabled && !b.disabled
    ensures AlternativesMessage(ShownAlternatives([a, b], 1230, Some(0), Some(1))) == "8 PM or 9 PM"
  {
    ShortTimeExamples();
    assert ShownAlternatives([a, b], 1230, Some(0), Some(1)) == ["8 PM", "9 PM"];
    assert ["8 PM", "9 PM"][1..] == ["9 PM"];
  }

  lemma ReportOfAlternatives(slots: seq<Slot>, requested: nat, left: Option<nat>, right: Option<nat>)
    requires slots != [] && Resolve(slots, requested) == Alternatives(left, right)
    ensures left.Some? ==> left.value < |slots| && SlotKind(slots[left.value], requested) == Earlier
    ensures right.Some? ==> right.value < |slots| && SlotKind(slots[right.value], requested) == Later
    ensures SearchReport(slots, requested)
            == Report(false, None, Some(AlternativesMessage(ShownAlternatives(slots, requested, left, right))), None)
  {
    ResolvedSlotsAreUsable(slots, requested);
  }

  /** On the hour the minutes are dropped; otherwise they are kept. */
  lemma ShortTimeExamples()
    ensures ShortTime(1200) == "8 PM" && ShortTime(1260) == "9 PM"
    ensures ShortTime(570) == "9:30 AM" && ShortTime(0) == "12 AM"
  {
    assert NatToString(8) == "8" && NatToString(9) == "9" && NatToString(12) == "12";
    assert Pad2(30) == "30";
  }

  /** `f"{hour:02d}{minute:02d}"`, the time in the booking URLs. */
  function Requested24(hour: nat, minute: nat): (s: string)
    requires hour < 24 && minute < 60
    ensures |s| == 4 && AllDigits(s)
  {
    Pad2(hour) + Pad2(minute)
  }

  /** The `HHMM` text gives back the hour and the minute. */
  lemma Requested24Inverse(hour: nat, minute: nat)
    requires hour < 24 && minute < 60
    ensures var s := Requested24(hour, minute);
      DigitsValue(s[..2]) == hour && DigitsValue(s[2..]) == minute
      && DigitsValue(s) == hour * 100 + minute
  {
    var s := Requested24(hour, minute);
    assert s[..2] == Pad2(hour) && s[2..] == Pad2(minute);
    Digits4(s);
  }

  /** What make_reservation establishes before opening the page: the date
      is valid, the time converts, and the moment is in the future. */
  datatype Request = Request(ampm: string, hhmm: string)

  function Precheck(date: string, hour: int, minute: int, now: Moment): (r: Result<Request, string>)
    ensures r.Ok? <==> (ValidateDate(date).Ok? && 0 <= hour < 24 && 0 <= minute < 60
                        && ValidateReservationDate(date, hour, minute, now))
    ensures ValidateDate(date).Err? ==> r == Err(ValidateDate(date).error)
    ensures ValidateDate(date).Ok? && ConvertToAmPm(hour, minute).Err? ==> r == Err(ConvertToAmPm(hour, minute).error)
    ensures ValidateDate(date).Ok? && ConvertToAmPm(hour, minute).Ok?
            && !ValidateReservationDate(date, hour, minute, now) ==>
            r == Err("Invalid reservation: Date and time is in the past.")
    ensures r.Ok? ==> ParseLabel(r.value.ampm) == Some(hour * 60 + minute)
    ensures r.Ok? ==> |r.value.hhmm| == 4 && AllDigits(r.value.hhmm) && DigitsValue(r.value.hhmm) == hour * 100 + minute
  {
    if ValidateDate(date).Err? then Err(ValidateDate(date).error)
    else
      var converted := ConvertToAmPm(hour, minute);
      if converted.Err? then Err(converted.error)
      else
        ConvertToAmPmRoundTrip(hour, minute);
        Requested24Inverse(hour, minute);
        if ValidateReservationDate(date, hour, minute, now) then Ok(Request(converted.value, Requested24(hour, minute)))
        else Err("Invalid reservation: Date and time is in the past.")
  }

  // ---------------------------------------------------------------------
  // Party size
  // ---------------------------------------------------------------------

  /** The message of the ValueError `int()` raises: the text as `repr`
      shows it, cut to 200 characters. */
  function IntLiteralError(s: string): string {
    "invalid literal for int() with base 10: " + Repr200(s)
  }

  /** The text of the party-size option to look for, built from the
      caller's text itself; a size below one is refused and text `int()`
      rejects is an unexpected error. */
  function PartySizeOption(partySize: string): (r: Result<string, string>)
    ensures ParseInt(partySize).None? <==> r == Err("Unexpected error: " + IntLiteralError(partySize))
    ensures ParseInt(partySize).Some? && ParseInt(partySize).value > 1 ==> r == Ok(partySize + " people")
    ensures ParseInt(partySize) == Some(1) ==> r == Ok("1 person")
    ensures ParseInt(partySize).Some? && ParseInt(partySize).value < 1 ==> r == Err("Party size is not in allowed range.")
  {
    match ParseInt(partySize)
    case None => Err("Unexpected error: " + IntLiteralError(partySize))
    case Some(n) =>
      if n > 1 then Ok(partySize + " people")
      else if n == 1 then Ok("1 person")
      else Err("Party size is not in allowed range.")
  }

  /** The party-size step against the options the page offers: an option
      that is not there means the size exceeds the maximum. */
  function PartySizeCheck(partySize: string, options: set<string>): (r: Outcome<string>)
    ensures r.Pass? <==> PartySizeOption(partySize).Ok? && PartySizeOption(partySize).value in options
    ensures PartySizeOption(partySize).Err? ==> r == Fail(PartySizeOption(partySize).error)
    ensures PartySizeOption(partySize).Ok? && PartySizeOption(partySize).value !in options ==>
            r == Fail("The party size is bigger than maximum.")
  {
    match PartySizeOption(partySize)
    case Err(e) => Fail(e)
    case Ok(option) => if option in options then Pass else Fail("The party size is bigger than maximum.")
  }

  /** For a size written the usual way the option reads "N people", or
      "1 person" for one. */
  lemma PartySizeOptionCanonical(n: nat)
    requires n >= 1
    ensures PartySizeOption(NatToString(n)) == Ok(if n == 1 then "1 person" else NatToString(n) + " people")
  {
  }

  /** A size with a quote in it is shown between double quotes, as `repr`
      does; a plain one between single quotes. */
  lemma PartySizeQuotedExample()
    ensures PartySizeOption("2'") == Err("Unexpected error: " + IntLiteralError("2'"))
    ensures IntLiteralError("2'") == "invalid literal for int() with base 10: \"2'\""
  {
    assert !AllDigits("2'") by {
      assert !IsDigit("2'"[1]);
    }
    assert ParseInt("2'") == None;
    ReprQuoteExample();
    assert Repr200("2'") == "\"2'\"";
  }

  lemma PartySizePlainExample()
    ensures PartySizeOption("two") == Err("Unexpected error: " + IntLiteralError("two"))
    ensures IntLiteralError("two") == "invalid literal for int() with base 10: 'two'"
  {
    assert !AllDigits("two") by {
      assert !IsDigit("two"[0]);
    }
    assert ParseInt("two") == None;
    ReprPlain("two");
    assert Repr200("two") == "'two'";
  }

  lemma PartySizeZeroRefused()
    ensures PartySizeOption("0") == Err("Party size is not in allowed range.")
  {
    assert DigitsValue("0") == DigitsValue("0"[..0]) * 10 + DigitValue('0');
  }

  // ---------------------------------------------------------------------
  // Contact form errors
  // ---------------------------------------------------------------------

  /** How filling one field went. */
  datatype FillOutcome = Filled | InvalidState | Raised(message: string)

  /** What the probe for one validation message found: the texts of the
      matching elements, nothing within the wait, or an unexpected error
      (which is logged and otherwise ignored). */
  datatype ProbeOutcome = Found(texts: seq<string>) | TimedOut | Broken(message: string)

  const FieldNames: seq<string> := ["first_name", "last_name", "mobile_number", "email"]
  const ProbeNames: seq<string> := ["maximum_input", "name_invalid_characters", "mobile_number", "email"]

  function FillMessages(name: string, outcome: FillOutcome): seq<string> {
    match outcome
    case Filled => []
    case InvalidState => [name + " field cannot be modified."]
    case Raised(e) => ["Unexpected error in " + name + ": " + e]
  }

  function ProbeMessages(name: string, outcome: ProbeOutcome): seq<string> {
    match outcome
    case Found(texts) => seq(|texts|, k requires 0 <= k < |texts| => name + ": " + texts[k])
    case _ => []
  }

  /** The errors the fill loop collects over the first `|outcomes|` fields. */
  function FillErrors(names: seq<string>, outcomes: seq<FillOutcome>): seq<string>
    requires |names| == |outcomes|
  {
    if outcomes == [] then []
    else FillErrors(names[..|names| - 1], outcomes[..|outcomes| - 1])
         + FillMessages(names[|names| - 1], outcomes[|outcomes| - 1])
  }

  function ProbeErrors(names: seq<string>, outcomes: seq<ProbeOutcome>): seq<string>
    requires |names| == |outcomes|
  {
    if outcomes == [] then []
    else ProbeErrors(names[..|names| - 1], outcomes[..|outcomes| - 1])
         + ProbeMessages(names[|names| - 1], outcomes[|outcomes| - 1])
  }

  predicate Failed(outcome: FillOutcome) {
    !outcome.Filled?
  }

  predicate Reported(outcome: ProbeOutcome) {
    outcome.Found? && |outcome.texts| > 0
  }

  /** Every field is attempted: each failed field contributes exactly one
      message, whatever happened to the fields before it. */
  lemma {:induction false} FillErrorsCount(names: seq<string>, outcomes: seq<FillOutcome>)
    requires |names| == |outcomes|
    ensures |FillErrors(names, outcomes)| == |outcomes| - multiset(outcomes)[Filled]
  {
    var n := |outcomes|;
    if n > 0 {
      var init, last := outcomes[..n - 1], outcomes[n - 1];
      FillErrorsCount(names[..n - 1], init);
      assert |FillErrors(names, outcomes)| == |FillErrors(names[..n - 1], init)| + |FillMessages(names[n - 1], last)|;
      assert outcomes == init + [last];
      assert multiset(outcomes)[Filled] == multiset(init)[Filled] + multiset{last}[Filled];
    }
  }

  /** No fill message is collected exactly when every field was filled. */
  lemma {:induction false} FillErrorsEmpty(names: seq<string>, outcomes: seq<FillOutcome>)
    requires |names| == |outcomes|
    ensures FillErrors(names, outcomes) == [] <==> forall i :: 0 <= i < |outcomes| ==> !Failed(outcomes[i])
  {
    var n := |outcomes|;
    if n > 0 {
      FillErrorsEmpty(names[..n - 1], outcomes[..n - 1]);
      assert forall i :: 0 <= i < n - 1 ==> outcomes[..n - 1][i] == outcomes[i];
    }
  }

  lemma {:induction false} ProbeErrorsEmpty(names: seq<string>, outcomes: seq<ProbeOutcome>)
    requires |names| == |outcomes|
    ensures ProbeErrors(names, outcomes) == [] <==> forall i :: 0 <= i < |outcomes| ==> !Reported(outcomes[i])
  {
    var n := |outcomes|;
    if n > 0 {
      ProbeErrorsEmpty(names[..n - 1], outcomes[..n - 1]);
      assert forall i :: 0 <= i < n - 1 ==> outcomes[..n - 1][i] == outcomes[i];
    }
  }

  /** The fill loop of receiving_reservation: every field is attempted,
      and each failure adds its message. */
  method CollectFillErrors(fills: seq<FillOutcome>) returns (errors: seq<string>)
    requires |fills| == |FieldNames|
    ensures errors == FillErrors(FieldNames, fills)
  {
    errors := [];
    for i := 0 to |fills|
      invariant errors == FillErrors(FieldNames[..i], fills[..i])
    {
      assert FieldNames[..i + 1][..i] == FieldNames[..i] && fills[..i + 1][..i] == fills[..i];
      match fills[i]
      case Filled =>
      case InvalidState =>
        errors := errors + [FieldNames[i] + " field cannot be modified."];
      case Raised(e) =>
        errors := errors + ["Unexpected error in " + FieldNames[i] + ": " + e];
    }
    assert FieldNames[..|fills|] == FieldNames && fills[..|fills|] == fills;
  }

  /** One validation probe: every element found adds "field: text". */
  method AppendProbeTexts(errors: seq<string>, field: string, texts: seq<string>) returns (result: seq<string>)
    ensures result == errors + ProbeMessages(field, Found(texts))
  {
    result := errors;
    for k := 0 to |texts|
      invariant result == errors + ProbeMessages(field, Found(texts[..k]))
    {
      result := result + [field + ": " + texts[k]];
    }
    assert texts[..|texts|] == texts;
  }

  /** The validation probes of receiving_reservation, run in order after
      the fill loop; a probe that times out or breaks adds nothing. */
  method CollectProbeErrors(probes: seq<ProbeOutcome>) returns (errors: seq<string>)
    requires |probes| == |ProbeNames|
    ensures errors == ProbeErrors(ProbeNames, probes)
  {
    errors := [];
    for i := 0 to |probes|
      invariant errors == ProbeErrors(ProbeNames[..i], probes[..i])
    {
      assert ProbeNames[..i + 1][..i] == ProbeNames[..i] && probes[..i + 1][..i] == probes[..i];
      if probes[i].Found? {
        errors := AppendProbeTexts(errors, ProbeNames[i], probes[i].texts);
      }
    }
    assert ProbeNames[..|probes|] == ProbeNames && probes[..|probes|] == probes;
  }

  /** receiving_reservation's verdict on the form: it fails when any
      message was collected, with all of them joined by ", ". */
  method CheckForm(fills: seq<FillOutcome>, probes: seq<ProbeOutcome>) returns (r: Outcome<string>)
    requires |fills| == |FieldNames| && |probes| == |ProbeNames|
    ensures r.Fail? <==> ((exists i :: 0 <= i < |fills| && Failed(fills[i]))
                         || (exists i :: 0 <= i < |probes| && Reported(probes[i])))
    ensures r.Fail? ==>
      r.error == "Form validation errors: " + Join(FillErrors(FieldNames, fills) + ProbeErrors(ProbeNames, probes), ", ")
  {
    var fillErrors := CollectFillErrors(fills);
    var probeErrors := CollectProbeErrors(probes);
    var errors := fillErrors + probeErrors;
    FillErrorsEmpty(FieldNames, fills);
    ProbeErrorsEmpty(ProbeNames, probes);
    if |errors| > 0 {
      return Fail("Form validation errors: " + Join(errors, ", "));
    }
    return Pass;
  }
}
