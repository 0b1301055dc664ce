/** The accordion click handlers. Two handlers exist: a page-wide one on every
    `.accordion-header` (it closes every `.accordion-card` of the page, resets
    every body's `max-height`, and opens the clicked card if it was closed),
    and one on the headers of the FAQ cards (it closes the FAQ cards and opens
    the clicked one if it was closed, without touching any body). A FAQ header
    is an `.accordion-header` too, so a click on it runs both, in that order. */
module Accordion {

  /** `n` cards, all in scope. */
  function Everywhere(n: nat): (s: seq<bool>)
    ensures |s| == n && forall i :: 0 <= i < n ==> s[i]
  {
    seq(n, _ => true)
  }

  /** An exclusive toggle of card `k` over the cards in `scope`: `k` flips,
      every other card in scope is closed, the cards out of scope keep their
      state. `open[i]` says whether card `i` carries `active`. */
  function Toggled(open: seq<bool>, scope: seq<bool>, k: nat): (r: seq<bool>)
    requires |scope| == |open| && k < |open| && scope[k]
    ensures |r| == |open|
    ensures r[k] == !open[k]
    ensures forall i :: 0 <= i < |r| && i != k && scope[i] ==> !r[i]
    ensures forall i :: 0 <= i < |r| && !scope[i] ==> r[i] == open[i]
  {
    seq(|open|, i requires 0 <= i < |open| => if scope[i] then i == k && !open[k] else open[i])
  }

  /** After a toggle at most one card in scope is open. */
  lemma ToggleExclusive(open: seq<bool>, scope: seq<bool>, k: nat, i: nat, j: nat)
    requires |scope| == |open| && k < |open| && scope[k]
    requires i < |open| && j < |open| && scope[i] && scope[j]
    requires Toggled(open, scope, k)[i] && Toggled(open, scope, k)[j]
    ensures i == j
  {
  }

  /** Clicking the same header twice brings its card back and leaves every
      other card in scope closed. */
  lemma ToggleTwice(open: seq<bool>, scope: seq<bool>, k: nat)
    requires |scope| == |open| && k < |open| && scope[k]
    ensures Toggled(Toggled(open, scope, k), scope, k)[k] == open[k]
  {
  }

  /** What a click on a FAQ header does with both handlers attached: the
      clicked card's `active` class ends as it was, while its body's height
      flips; the two never agree afterwards. */
  lemma DoubleHandlerDisagrees(open: seq<bool>, inFaq: seq<bool>, k: nat)
    requires |inFaq| == |open| && k < |open| && inFaq[k]
    ensures var expanded := Toggled(open, Everywhere(|open|), k);
            var active := Toggled(expanded, inFaq, k);
            active[k] == open[k] && expanded[k] == !open[k] && active[k] != expanded[k]
  {
  }

  /** One click on the header of FAQ card `k` with both handlers attached:
      the page-wide toggle, then the FAQ toggle. */
  function BothHandlers(open: seq<bool>, inFaq: seq<bool>, k: nat): (r: seq<bool>)
    requires |inFaq| == |open| && k < |open| && inFaq[k]
    ensures |r| == |open| && r[k] == open[k]
    ensures forall i :: 0 <= i < |r| && i != k ==> !r[i]
  {
    Toggled(Toggled(open, Everywhere(|open|), k), inFaq, k)
  }

  /** The `active` classes after `n` clicks on the header of FAQ card `k`. */
  function Clicks(open: seq<bool>, inFaq: seq<bool>, k: nat, n: nat): (r: seq<bool>)
    requires |inFaq| == |open| && k < |open| && inFaq[k]
    ensures |r| == |open|
    decreases n
  {
    if n == 0 then open else BothHandlers(Clicks(open, inFaq, k, n - 1), inFaq, k)
  }

  /** With both handlers attached no number of clicks on a FAQ header ever
      changes its card's `active` class: a closed card never opens, an open
      one never closes; from the first click on, every other card is closed. */
  lemma {:induction false} FaqCardStuck(open: seq<bool>, inFaq: seq<bool>, k: nat, n: nat)
    requires |inFaq| == |open| && k < |open| && inFaq[k]
    ensures Clicks(open, inFaq, k, n)[k] == open[k]
    ensures n >= 1 ==> forall i :: 0 <= i < |open| && i != k ==> !Clicks(open, inFaq, k, n)[i]
    decreases n
  {
    if n > 0 {
      FaqCardStuck(open, inFaq, k, n - 1);
    }
  }

  /** The body of card `k` after the `n`-th click (`n >= 1`): the page-wide
      handler sets every body's height from its own toggle, which the FAQ
      handler leaves alone. */
  function BodiesAfter(open: seq<bool>, inFaq: seq<bool>, k: nat, n: nat): (e: seq<bool>)
    requires |inFaq| == |open| && k < |open| && inFaq[k] && n >= 1
    ensures |e| == |open|
    ensures forall i :: 0 <= i < |e| && i != k ==> !e[i]
  {
    Toggled(Clicks(open, inFaq, k, n - 1), Everywhere(|open|), k)
  }

  /** On every click the clicked FAQ card's body ends opposite to the state it
      started in, and so opposite to its `active` class: a card that starts
      closed shows its body with the card inactive, an open one the reverse. */
  lemma {:induction false} FaqBodyOpposite(open: seq<bool>, inFaq: seq<bool>, k: nat, n: nat)
    requires |inFaq| == |open| && k < |open| && inFaq[k] && n >= 1
    ensures BodiesAfter(open, inFaq, k, n)[k] == !open[k]
    ensures BodiesAfter(open, inFaq, k, n)[k] != Clicks(open, inFaq, k, n)[k]
  {
    FaqCardStuck(open, inFaq, k, n - 1);
    FaqCardStuck(open, inFaq, k, n);
  }

  /** The accordion cards of the page. */
  class Cards {
    /** Whether each card carries `active`. */
    const active: array<bool>
    /** Whether each card's body has its `max-height` set (drawn open). */
    const expanded: array<bool>
    /** Whether each card is one of the FAQ cards. */
    const inFaq: seq<bool>

    ghost predicate Valid()
      reads this
    {
      active.Length == expanded.Length == |inFaq| && active != expanded
    }

    constructor (n: nat, inFaq: seq<bool>)
      requires |inFaq| == n
      ensures Valid() && this.inFaq == inFaq && fresh(active) && fresh(expanded)
      ensures forall i :: 0 <= i < n ==> !active[i] && !expanded[i]
    {
      active := new bool[n](_ => false);
      expanded := new bool[n](_ => false);
      this.inFaq := inFaq;
    }

    /** The page-wide handler of the header of card `k`. */
    method PageClick(k: nat)
      requires Valid() && k < active.Length
      modifies active, expanded
      ensures active[..] == Toggled(old(active[..]), Everywhere(active.Length), k)
      ensures expanded[..] == active[..]
    {
      var open := active[k];
      ghost var before := active[..];
      var i := 0;
      while i < active.Length
        invariant 0 <= i <= active.Length
        invariant forall j :: 0 <= j < i ==> !active[j] && !expanded[j]
        invariant forall j :: i <= j < active.Length ==> active[j] == before[j]
      {
        active[i] := false;
        expanded[i] := false;
        i := i + 1;
      }
      if !open {
        active[k] := true;
        expanded[k] := true;
      }
      assert active[..] == Toggled(before, Everywhere(active.Length), k);
    }

    /** The FAQ handler of the header of FAQ card `k`. */
    method FaqClick(k: nat)
      requires Valid() && k < active.Length && inFaq[k]
      modifies active
      ensures active[..] == Toggled(old(active[..]), inFaq, k)
    {
      var isOpen := active[k];
      ghost var before := active[..];
      var i := 0;
      while i < active.Length
        invariant 0 <= i <= active.Length
        invariant forall j :: 0 <= j < i ==> active[j] == (before[j] && !inFaq[j])
        invariant forall j :: i <= j < active.Length ==> active[j] == before[j]
      {
        if inFaq[i] {
          active[i] := false;
        }
        i := i + 1;
      }
      if !isOpen {
        active[k] := true;
      }
      assert active[..] == Toggled(before, inFaq, k);
    }

    /** A click on a FAQ header as the page wires it: the page-wide handler,
        then the FAQ handler. */
    method FaqHeaderClick(k: nat)
      requires Valid() && k < active.Length && inFaq[k]
      modifies active, expanded
      ensures expanded[..] == Toggled(old(active[..]), Everywhere(active.Length), k)
      ensures active[..] == Toggled(expanded[..], inFaq, k)
      ensures active[k] == old(active[k]) && expanded[k] != active[k]
    {
      PageClick(k);
      FaqClick(k);
      DoubleHandlerDisagrees(old(active[..]), inFaq, k);
    }

    /** The page-wide handler kept off the FAQ cards: it toggles card `k`
        among the other accordions, body and class together. */
    method OtherClick(k: nat)
      requires Valid() && k < active.Length && !inFaq[k]
      modifies active, expanded
      ensures active[..] == Toggled(old(active[..]), Outside(inFaq), k)
      ensures forall i :: 0 <= i < active.Length && !inFaq[i] ==> expanded[i] == active[i]
      ensures forall i :: 0 <= i < active.Length && inFaq[i] ==> expanded[i] == old(expanded[i])
    {
      var open := active[k];
      ghost var before := active[..];
      var i := 0;
      while i < active.Length
        invariant 0 <= i <= active.Length
        invariant forall j :: 0 <= j < i ==> active[j] == (before[j] && inFaq[j])
        invariant forall j :: 0 <= j < i && !inFaq[j] ==> !expanded[j]
        invariant forall j :: i <= j < active.Length ==> active[j] == before[j]
        invariant forall j :: 0 <= j < active.Length && (i <= j || inFaq[j]) ==> expanded[j] == old(expanded[j])
      {
        if !inFaq[i] {
          active[i] := false;
          expanded[i] := false;
        }
        i := i + 1;
      }
      if !open {
        active[k] := true;
        expanded[k] := true;
      }
      assert active[..] == Toggled(before, Outside(inFaq), k);
    }

    /** A header click with each card under exactly one handler: the clicked
        card's `active` flips, no other card of its group stays open, and the
        other group is left alone. */
    method HeaderClick(k: nat)
      requires Valid() && k < active.Length
      modifies active, expanded
      ensures active[k] == !old(active[k])
      ensures forall i :: 0 <= i < active.Length && i != k && inFaq[i] == inFaq[k] ==> !active[i]
      ensures forall i :: 0 <= i < active.Length && inFaq[i] != inFaq[k] ==>
        active[i] == old(active[i]) && expanded[i] == old(expanded[i])
    {
      if inFaq[k] {
        FaqClick(k);
      } else {
        OtherClick(k);
      }
    }
  }

  /** The cards outside the FAQ. */
  function Outside(inFaq: seq<bool>): (s: seq<bool>)
    ensures |s| == |inFaq| && forall i :: 0 <= i < |s| ==> s[i] == !inFaq[i]
  {
    seq(|inFaq|, i requires 0 <= i < |inFaq| => !inFaq[i])
  }
}
