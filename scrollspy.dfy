/** The scroll spy: on every scroll the menu links whose `href` contains the id
    of the current section get `active`. The current section is the last one
    whose top is at most 120 pixels below the scroll offset. */
module ScrollSpy {
  import opened Text

  /** A `<section>`: its `offsetTop` and its `id` attribute (`None` when it has
      none, where `getAttribute` returns `null`). */
  datatype Section = Section(top: int, id: Option<string>)

  /** A section is highlighted from 120 pixels before its top reaches the top of the window. */
  const Lead := 120

  predicate Reached(s: Section, offset: int) {
    offset >= s.top - Lead
  }

  /** The value `current` holds after the loop over `sections`: the id of the
      last reached section, or `""` when none is reached. */
  function Spied(sections: seq<Section>, offset: int): (r: Option<string>)
    ensures r == Some("") || exists j :: 0 <= j < |sections| && Reached(sections[j], offset) && r == sections[j].id
    decreases |sections|
  {
    if sections == [] then Some("")
    else if Reached(sections[|sections| - 1], offset) then sections[|sections| - 1].id
    else Spied(sections[..|sections| - 1], offset)
  }

  /** `includes` turns a `null` argument into the text `"null"`. */
  function Needle(current: Option<string>): string {
    match current
    case None => "null"
    case Some(s) => s
  }

  /** The loop over the sections. */
  method SpyCurrent(sections: seq<Section>, offset: int) returns (current: Option<string>)
    ensures current == Spied(sections, offset)
  {
    current := Some("");
    var i := 0;
    while i < |sections|
      invariant 0 <= i <= |sections|
      invariant current == Spied(sections[..i], offset)
    {
      assert sections[..i + 1][..i] == sections[..i];
      if offset >= sections[i].top - Lead {
        current := sections[i].id;
      }
      i := i + 1;
    }
    assert sections[..|sections|] == sections;
  }

  /** The current section is the last one reached. */
  lemma {:induction false} SpiedIsLast(sections: seq<Section>, offset: int, k: nat)
    requires k < |sections| && Reached(sections[k], offset)
    requires forall j :: k < j < |sections| ==> !Reached(sections[j], offset)
    ensures Spied(sections, offset) == sections[k].id
    decreases |sections|
  {
    if k < |sections| - 1 {
      var front := sections[..|sections| - 1];
      assert front[k] == sections[k];
      SpiedIsLast(front, offset, k);
    }
  }

  /** With no section reached the current id is `""`. */
  lemma {:induction false} SpiedNone(sections: seq<Section>, offset: int)
    requires forall j :: 0 <= j < |sections| ==> !Reached(sections[j], offset)
    ensures Spied(sections, offset) == Some("")
    decreases |sections|
  {
    if sections != [] {
      var front := sections[..|sections| - 1];
      assert forall j :: 0 <= j < |front| ==> front[j] == sections[j];
      SpiedNone(front, offset);
    }
  }

  /** The loop over the links: each one loses `active`, then gets it back if
      its `href` contains the current id. */
  method MarkLinks(hrefs: seq<string>, current: Option<string>, active: array<bool>)
    requires active.Length == |hrefs|
    modifies active
    ensures forall i :: 0 <= i < |hrefs| ==> active[i] == Includes(hrefs[i], Needle(current))
  {
    var needle := Needle(current);
    var i := 0;
    while i < active.Length
      invariant 0 <= i <= active.Length
      invariant forall j :: 0 <= j < i ==> active[j] == Includes(hrefs[j], needle)
    {
      active[i] := false;
      if Includes(hrefs[i], needle) {
        active[i] := true;
      }
      i := i + 1;
    }
  }

  /** The scroll handler. */
  method OnScroll(sections: seq<Section>, offset: int, hrefs: seq<string>, active: array<bool>)
    requires active.Length == |hrefs|
    modifies active
    ensures forall i :: 0 <= i < |hrefs| ==>
      active[i] == Includes(hrefs[i], Needle(Spied(sections, offset)))
  {
    var current := SpyCurrent(sections, offset);
    MarkLinks(hrefs, current, active);
  }

  /** Above the first section every link is active, since every `href`
      contains the empty string. */
  lemma AboveAllSectionsAllActive(sections: seq<Section>, offset: int, href: string)
    requires forall j :: 0 <= j < |sections| ==> !Reached(sections[j], offset)
    ensures Includes(href, Needle(Spied(sections, offset)))
  {
    SpiedNone(sections, offset);
    IncludesEmpty(href);
  }

  /** A link is active exactly when the current id occurs in its `href`. */
  lemma ActiveMeansOccurs(href: string, current: Option<string>)
    ensures Includes(href, Needle(current)) <==> exists k: nat :: OccursAt(href, Needle(current), k)
  {
    IncludesOccurs(href, Needle(current));
  }
}
