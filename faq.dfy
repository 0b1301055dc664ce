/** The FAQ section: the "Read more" button that reveals the FAQ cards in
    three stages (first five, then up to eight, then all, then back). */
module Faq {

  const Hidden := "faq-hidden"
  const Shown := "faq-revealed"

  /** Cards `[0, FirstSize)` are always visible, `[FirstSize, SecondEnd)` form
      the second set, the rest the final set. */
  const FirstSize := 5
  const SecondEnd := 8

  const ReadMoreLabel := "Read more"
  const ShowLessLabel := "Show Less"

  function Min(a: int, b: int): int {
    if a < b then a else b
  }

  /** A card being revealed: it loses `faq-hidden` and gains `faq-revealed`. */
  function Revealed(c: set<string>): (r: set<string>)
    ensures Hidden !in r && Shown in r
  {
    c - {Hidden} + {Shown}
  }

  /** A card being collapsed: it loses `faq-revealed` and gains `faq-hidden`. */
  function Concealed(c: set<string>): (r: set<string>)
    ensures Hidden in r && Shown !in r
  {
    c - {Shown} + {Hidden}
  }

  /** Collapsing twice is collapsing once (the collapse step's extra pass
      over both sets changes nothing), and collapsing after a reveal leaves a
      card as collapsing it directly would. */
  lemma ConcealedIdempotent(c: set<string>)
    ensures Concealed(Concealed(c)) == Concealed(c)
    ensures Concealed(Revealed(c)) == Concealed(c)
  {
  }

  /** The FAQ section after its `DOMContentLoaded` handler ran. */
  class FaqList {
    /** Class lists of the `.accordion-card` elements of `#faq`, in order. */
    const cards: array<set<string>>
    var stage: nat
    /** Whether the ask button carries `faq-ask-hidden`. */
    var askHidden: bool
    /** The text of the "Read more" button. */
    var buttonText: string

    /** In stage 0 only the first five cards are visible, in stage 1 the
        first eight, in stage 2 all; the ask button shows only in stage 2. */
    ghost predicate Valid()
      reads this, cards
    {
      && stage <= 2
      && (askHidden <==> stage != 2)
      && (stage == 2 ==> buttonText == ShowLessLabel)
      && (forall i :: FirstSize <= i < Min(SecondEnd, cards.Length) ==>
            (Hidden in cards[i] <==> stage == 0))
      && (forall i :: SecondEnd <= i < cards.Length ==>
            (Hidden in cards[i] <==> stage != 2))
    }

    /** The set-up: hide every card from the sixth on and the ask button,
        start at stage 0. `buttonText` is the button's text in the markup. */
    constructor (cards: array<set<string>>, buttonText: string)
      modifies cards
      ensures this.cards == cards && stage == 0 && askHidden && this.buttonText == buttonText
      ensures forall i :: 0 <= i < cards.Length ==>
        cards[i] == if i < FirstSize then old(cards[i]) else old(cards[i]) + {Hidden}
      ensures Valid()
    {
      this.cards := cards;
      var i := FirstSize;
      while i < cards.Length
        invariant FirstSize <= i
        invariant forall j :: 0 <= j < cards.Length ==>
          cards[j] == if FirstSize <= j < i then old(cards[j]) + {Hidden} else old(cards[j])
      {
        cards[i] := cards[i] + {Hidden};
        i := i + 1;
      }
      stage := 0;
      askHidden := true;
      this.buttonText := buttonText;
    }

    /** Reveal cards `[lo, hi)`. */
    method RevealRange(lo: nat, hi: nat)
      requires lo <= hi <= cards.Length
      modifies cards
      ensures forall i :: 0 <= i < cards.Length ==>
        cards[i] == if lo <= i < hi then Revealed(old(cards[i])) else old(cards[i])
    {
      var i := lo;
      while i < hi
        invariant lo <= i <= hi
        invariant forall j :: 0 <= j < cards.Length ==>
          cards[j] == if lo <= j < i then Revealed(old(cards[j])) else old(cards[j])
      {
        cards[i] := cards[i] - {Hidden} + {Shown};
        i := i + 1;
      }
    }

    /** Collapse cards `[lo, hi)`. */
    method ConcealRange(lo: nat, hi: nat)
      requires lo <= hi <= cards.Length
      modifies cards
      ensures forall i :: 0 <= i < cards.Length ==>
        cards[i] == if lo <= i < hi then Concealed(old(cards[i])) else old(cards[i])
    {
      var i := lo;
      while i < hi
        invariant lo <= i <= hi
        invariant forall j :: 0 <= j < cards.Length ==>
          cards[j] == if lo <= j < i then Concealed(old(cards[j])) else old(cards[j])
      {
        cards[i] := cards[i] - {Shown} + {Hidden};
        i := i + 1;
      }
    }

    /** The "Read more" click: stage 0 reveals the second set, stage 1 the
        final set and the ask button (and relabels the button "Show Less"),
        stage 2 collapses both sets, hides the ask button and relabels it
        "Read more". The first five cards never change. */
    method ReadMore()
      requires Valid()
      modifies this, cards
      ensures Valid()
      ensures stage == (old(stage) + 1) % 3
      ensures old(stage) == 1 ==> buttonText == ShowLessLabel
      ensures old(stage) == 2 ==> buttonText == ReadMoreLabel
      ensures old(stage) == 0 ==> buttonText == old(buttonText)
      ensures forall i :: 0 <= i < cards.Length ==> (cards[i] ==
        if i < FirstSize then old(cards[i])
        else if i < SecondEnd then
          (if old(stage) == 0 then Revealed(old(cards[i]))
           else if old(stage) == 2 then Concealed(old(cards[i]))
           else old(cards[i]))
        else
          (if old(stage) == 1 then Revealed(old(cards[i]))
           else if old(stage) == 2 then Concealed(old(cards[i]))
           else old(cards[i])))
    {
      // `slice` clamps its bounds to the length of the list.
      var secondStart := Min(FirstSize, cards.Length);
      var secondEnd := Min(SecondEnd, cards.Length);
      if stage == 0 {
        RevealRange(secondStart, secondEnd);
        stage := 1;
        return;
      }
      if stage == 1 {
        RevealRange(secondEnd, cards.Length);
        askHidden := false;
        buttonText := ShowLessLabel;
        stage := 2;
        return;
      }
      if stage == 2 {
        ghost var before := cards[..];
        ConcealRange(secondStart, secondEnd);
        ConcealRange(secondEnd, cards.Length);
        ConcealRange(secondStart, cards.Length);
        forall i | FirstSize <= i < cards.Length
          ensures cards[i] == Concealed(before[i])
        {
          ConcealedIdempotent(before[i]);
        }
        askHidden := true;
        buttonText := ReadMoreLabel;
        stage := 0;
        return;
      }
    }
  }

  /** Stage 0 hides every card from the sixth on, and no other; in stage 2
      every card is visible. */
  lemma StageVisibility(cards: seq<set<string>>, stage: nat, i: nat)
    requires i < |cards|
    requires forall j :: FirstSize <= j < Min(SecondEnd, |cards|) ==> (Hidden in cards[j] <==> stage == 0)
    requires forall j :: SecondEnd <= j < |cards| ==> (Hidden in cards[j] <==> stage != 2)
    ensures FirstSize <= i && stage == 0 ==> Hidden in cards[i]
    ensures FirstSize <= i && stage == 2 ==> Hidden !in cards[i]
    ensures FirstSize <= i < SecondEnd && stage == 1 ==> Hidden !in cards[i]
  {
    if FirstSize <= i < Min(SecondEnd, |cards|) {
      assert Hidden in cards[i] <==> stage == 0;
    } else if SecondEnd <= i {
      assert Hidden in cards[i] <==> stage != 2;
    }
  }
}
