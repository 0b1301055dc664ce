/** The "cylinder" effect of the three horizontal carousels (pricing cards,
    floor plans, gallery): on every scroll the item whose centre is nearest the
    container's centre becomes `active-card`, its left sibling `prev-card` and
    its right sibling `next-card`. Positions are whole pixels. */
module Carousel {
  import opened Text

  const Active := "active-card"
  const Prev := "prev-card"
  const Next := "next-card"
  /** The three labels an update clears from every item first. */
  const Labels: set<string> := {Active, Prev, Next}

  /** The width above which the gallery copy does nothing. */
  const MobileWidth := 900

  function Dist(a: int, b: int): nat {
    if a < b then b - a else a - b
  }

  /** `k` is the item the update picks among `centres`: its distance to `mid`
      is minimal, and every item before it is strictly farther (the test is
      `distance < minDistance`, so the leftmost of equally near items wins). */
  ghost predicate IsClosest(centres: seq<int>, mid: int, k: nat) {
    && k < |centres|
    && (forall j :: 0 <= j < |centres| ==> Dist(mid, centres[k]) <= Dist(mid, centres[j]))
    && (forall j :: 0 <= j < k ==> Dist(mid, centres[k]) < Dist(mid, centres[j]))
  }

  /** The item picked among the first `n` centres, scanning left to right. */
  function ClosestIn(centres: seq<int>, mid: int, n: nat): (k: nat)
    requires 0 < n <= |centres|
    ensures IsClosest(centres[..n], mid, k)
  {
    if n == 1 then 0
    else
      var k := ClosestIn(centres, mid, n - 1);
      assert centres[..n - 1] == centres[..n][..n - 1];
      if Dist(mid, centres[n - 1]) < Dist(mid, centres[k]) then n - 1 else k
  }

  /** The item picked among all centres. */
  function Closest(centres: seq<int>, mid: int): (k: nat)
    requires |centres| > 0
    ensures IsClosest(centres, mid, k)
  {
    assert centres[..|centres|] == centres;
    ClosestIn(centres, mid, |centres|)
  }

  /** There is exactly one such item. */
  lemma ClosestUnique(centres: seq<int>, mid: int, k: nat, k': nat)
    requires IsClosest(centres, mid, k) && IsClosest(centres, mid, k')
    ensures k == k'
  {
    var d, d' := Dist(mid, centres[k]), Dist(mid, centres[k']);
    assert d <= d' && d' <= d;
    assert k < k' ==> d' < d;
    assert k' < k ==> d < d';
  }

  /** The class list of item `i` once item `k` is picked: the old classes
      without any label, plus `active-card` on `k` itself, `prev-card` on the
      item just before it and `next-card` on the item just after it. */
  function Relabelled(classes: set<string>, i: nat, k: nat): (r: set<string>)
    ensures r - Labels == classes - Labels
  {
    (classes - Labels)
    + (if i == k then {Active} else {})
    + (if i + 1 == k then {Prev} else {})
    + (if i == k + 1 then {Next} else {})
  }

  /** The three labels are different class names. */
  lemma LabelsDistinct()
    ensures Active != Prev && Active != Next && Prev != Next
  {
    assert Active[0] == 'a' && Prev[0] == 'p' && Next[0] == 'n';
  }

  /** The labels of item `i` once item `k` is picked. */
  function LabelsOf(i: nat, k: nat): set<string> {
    (if i == k then {Active} else {})
    + (if i + 1 == k then {Prev} else {})
    + (if i == k + 1 then {Next} else {})
  }

  /** Removing a set of labels and adding some of them back leaves exactly
      those among the labels. */
  lemma SwapLabels(classes: set<string>, labels: set<string>, added: set<string>)
    requires added <= labels
    ensures ((classes - labels) + added) * labels == added
  {
  }

  /** Each label sits on exactly one item, determined by `k`, and no item
      carries two labels. */
  lemma RelabelledLabels(classes: set<string>, i: nat, k: nat)
    ensures Active in Relabelled(classes, i, k) <==> i == k
    ensures Prev in Relabelled(classes, i, k) <==> i + 1 == k
    ensures Next in Relabelled(classes, i, k) <==> i == k + 1
    ensures |Relabelled(classes, i, k) * Labels| <= 1
  {
    LabelsDistinct();
    var added := LabelsOf(i, k);
    assert Relabelled(classes, i, k) == (classes - Labels) + added;
    SwapLabels(classes, Labels, added);
    if i == k {
      assert added == {Active};
    } else if i + 1 == k {
      assert added == {Prev};
    } else if i == k + 1 {
      assert added == {Next};
    } else {
      assert added == {};
    }
  }

  /** One carousel: the class list of each of its items, in sibling order. */
  class Strip {
    const items: array<set<string>>

    constructor (n: nat)
      ensures items.Length == n && fresh(items)
      ensures forall i :: 0 <= i < n ==> items[i] == {}
    {
      items := new set<string>[n](_ => {});
    }

    /** `updateCylinderEffect` / `updateFloorCylinder`: `centres[i]` is the
        centre of item `i` and `mid` that of the container. Every item loses its
        labels while the nearest one is sought; then it and its neighbours get theirs. */
    method Update(centres: seq<int>, mid: int)
      requires |centres| == items.Length
      modifies items
      ensures items.Length == 0 ==> items[..] == old(items[..])
      ensures items.Length > 0 ==> forall i :: 0 <= i < items.Length ==>
        items[i] == Relabelled(old(items[i]), i, Closest(centres, mid))
    {
      var closest: Option<nat> := None;
      var minDistance := 0;
      var i := 0;
      while i < items.Length
        invariant 0 <= i <= items.Length
        invariant i == 0 <==> closest.None?
        invariant closest.Some? ==> closest.value == ClosestIn(centres, mid, i)
                                    && minDistance == Dist(mid, centres[closest.value])
        invariant forall j :: 0 <= j < i ==> items[j] == old(items[j]) - Labels
        invariant forall j :: i <= j < items.Length ==> items[j] == old(items[j])
      {
        var distance := Dist(mid, centres[i]);
        items[i] := items[i] - Labels;
        if closest.None? || distance < minDistance {
          minDistance := distance;
          closest := Some(i);
        }
        i := i + 1;
      }
      if closest.Some? {
        assert centres[..items.Length] == centres;
        Label(closest.value);
      }
    }

    /** The labelling after the scan: `active-card` on item `k`, `prev-card`
        on its previous item and `next-card` on its next one, where they exist. */
    method Label(k: nat)
      requires k < items.Length
      modifies items
      ensures forall i :: 0 <= i < items.Length ==> (items[i] ==
        old(items[i])
        + (if i == k then {Active} else {})
        + (if i + 1 == k then {Prev} else {})
        + (if i == k + 1 then {Next} else {}))
    {
      items[k] := items[k] + {Active};
      if k > 0 {
        items[k - 1] := items[k - 1] + {Prev};
      }
      if k + 1 < items.Length {
        items[k + 1] := items[k + 1] + {Next};
      }
    }

    /** `updateGalleryCylinder`: the same update, skipped entirely on a window
        wider than 900 pixels. */
    method UpdateGallery(width: int, centres: seq<int>, mid: int)
      requires |centres| == items.Length
      modifies items
      ensures width > MobileWidth || items.Length == 0 ==> items[..] == old(items[..])
      ensures width <= MobileWidth && items.Length > 0 ==> forall i :: 0 <= i < items.Length ==>
        items[i] == Relabelled(old(items[i]), i, Closest(centres, mid))
    {
      if width > MobileWidth {
        return;
      }
      Update(centres, mid);
    }
  }

  /** After an update of a non-empty strip exactly one item is active, the
      leftmost nearest one. */
  lemma ActiveIsClosest(centres: seq<int>, mid: int, before: seq<set<string>>, after: seq<set<string>>, i: nat)
    requires |centres| == |before| == |after| > 0 && i < |after|
    requires forall j :: 0 <= j < |after| ==> after[j] == Relabelled(before[j], j, Closest(centres, mid))
    ensures Active in after[i] <==> IsClosest(centres, mid, i)
  {
    var k := Closest(centres, mid);
    RelabelledLabels(before[i], i, k);
    if IsClosest(centres, mid, i) {
      ClosestUnique(centres, mid, i, k);
    }
  }
}
