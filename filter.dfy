/** The project filter: buttons carrying `data-filter`, cards carrying `data-tags`, a "no results" placeholder. */
module Filter {
  import opened Wrappers
  import opened Text

  /** The text a button's `data-filter` stands for in `tags.includes(...)`: a missing attribute is coerced to `"undefined"`. */
  function FilterText(filter: Option<string>): string {
    filter.GetOr("undefined")
  }

  /** `card.dataset.tags || ""`: a missing or empty attribute is the empty string. */
  function TagText(tags: Option<string>): string {
    tags.GetOr("")
  }

  /**
   * `filterValue === "all" || tags.includes(filterValue)`. A card without tags
   * is shown only by `"all"` or an empty filter; a card whose tag text is the
   * filter text is always shown.
   */
  predicate Matches(filter: Option<string>, tags: Option<string>)
    ensures TagText(tags) == "" ==> (Matches(filter, tags) <==> filter == Some("all") || FilterText(filter) == "")
    ensures TagText(tags) == FilterText(filter) ==> Matches(filter, tags)
  {
    filter == Some("all") || Includes(TagText(tags), FilterText(filter))
  }

  /**
   * A card matches exactly when the filter is `"all"` or the filter text
   * occurs anywhere in the tag text, inside a longer tag included.
   */
  lemma MatchesIffOccurs(filter: Option<string>, tags: Option<string>)
    ensures Matches(filter, tags) <==>
      filter == Some("all") || exists i :: OccursAt(TagText(tags), FilterText(filter), i)
  {
    IncludesIffOccurs(TagText(tags), FilterText(filter));
  }

  /** A filter that is only part of a tag still selects the card: `"app"` matches `"webapp mobile"`. */
  lemma PartialTagMatches()
    ensures Matches(Some("app"), Some("webapp mobile"))
  {
  }

  /** An empty `data-filter` selects every card, even one without tags. */
  lemma EmptyFilterMatchesAll(tags: Option<string>)
    ensures Matches(Some(""), tags)
  {
  }

  /** The number of cards a filter pass leaves visible. */
  function VisibleCount(filter: Option<string>, tags: seq<Option<string>>): (r: nat)
    ensures r <= |tags|
  {
    if |tags| == 0 then 0
    else VisibleCount(filter, tags[..|tags| - 1]) + (if Matches(filter, tags[|tags| - 1]) then 1 else 0)
  }

  /** No card is visible exactly when no card matches. */
  lemma {:induction false} VisibleCountZeroIffNoneMatch(filter: Option<string>, tags: seq<Option<string>>)
    ensures VisibleCount(filter, tags) == 0 <==> forall i :: 0 <= i < |tags| ==> !Matches(filter, tags[i])
    decreases |tags|
  {
    if |tags| > 0 {
      var init := tags[..|tags| - 1];
      VisibleCountZeroIffNoneMatch(filter, init);
      assert forall i :: 0 <= i < |init| ==> init[i] == tags[i];
    }
  }

  /** `"all"` shows every card. */
  lemma {:induction false} AllShowsEveryCard(tags: seq<Option<string>>)
    ensures VisibleCount(Some("all"), tags) == |tags|
    decreases |tags|
  {
    if |tags| > 0 {
      AllShowsEveryCard(tags[..|tags| - 1]);
    }
  }

  /** `document.querySelector(".filter-btn.active")`: the first button, in document order, marked active. */
  function FirstActive(active: seq<bool>): (r: Option<nat>)
    ensures r.Some? ==> r.value < |active| && active[r.value]
    ensures r.Some? ==> forall j :: 0 <= j < r.value ==> !active[j]
    ensures r.None? ==> forall j :: 0 <= j < |active| ==> !active[j]
  {
    if |active| == 0 then None
    else if active[0] then Some(0)
    else
      match FirstActive(active[1..])
      case None => None
      case Some(k) => Some(k + 1)
  }

  /**
   * The `active` marks after a click on button `k`: the first marked button
   * loses its mark, then `k` gains one. The clicked button is marked and no
   * other button gains a mark.
   */
  function AfterClick(active: seq<bool>, k: nat): (r: seq<bool>)
    requires k < |active|
    ensures |r| == |active| && r[k]
    ensures forall i :: 0 <= i < |active| && i != k && r[i] ==> active[i]
  {
    var cleared := match FirstActive(active)
      case None => active
      case Some(j) => active[j := false];
    cleared[k := true]
  }

  /** When at most one button was marked before a click, exactly the clicked button is marked after it. */
  lemma ClickMarksOnlyClicked(active: seq<bool>, k: nat)
    requires k < |active|
    requires forall i, j :: 0 <= i < j < |active| && active[i] ==> !active[j]
    ensures |AfterClick(active, k)| == |active|
    ensures forall i :: 0 <= i < |active| ==> (AfterClick(active, k)[i] <==> i == k)
  {
  }

  /** With two or more buttons already marked, a click leaves an earlier mark behind: only the first mark is removed. */
  lemma ClickClearsOnlyFirstMark(active: seq<bool>, k: nat, j: nat)
    requires k < |active| && j < |active| && j != k
    requires active[j]
    requires exists i :: 0 <= i < j && active[i]
    ensures AfterClick(active, k)[j]
  {
  }

  /** The "no results" node: not yet created, or appended to the grid with its `hide` class set or not. */
  datatype Placeholder = Absent | Present(hidden: bool)

  class ProjectFilter {
    /** Each button's `data-filter` attribute, in document order. */
    const filters: seq<Option<string>>
    /** Each card's `data-tags` attribute, in document order. */
    const tags: seq<Option<string>>
    /** At least one button and the grid exist. */
    const enabled: bool
    /** Each button carries `active`. */
    var active: seq<bool>
    /** Each card carries `hide`. */
    var hidden: seq<bool>
    var placeholder: Placeholder

    ghost predicate Valid()
      reads this
    {
      |active| == |filters| && |hidden| == |tags| && (enabled <==> placeholder.Present?)
    }

    /** Finds the buttons, cards and grid; when enabled, appends the placeholder to the grid, hidden. */
    constructor (filters: seq<Option<string>>, active: seq<bool>, tags: seq<Option<string>>, hidden: seq<bool>, hasGrid: bool)
      requires |active| == |filters| && |hidden| == |tags|
      ensures Valid()
      ensures this.filters == filters && this.tags == tags && this.active == active && this.hidden == hidden
      ensures enabled == (|filters| > 0 && hasGrid)
      ensures placeholder == if enabled then Present(true) else Absent
    {
      this.filters, this.tags := filters, tags;
      this.active, this.hidden := active, hidden;
      enabled := |filters| > 0 && hasGrid;
      placeholder := if |filters| > 0 && hasGrid then Present(true) else Absent;
    }

    /** A click on button `k`: move the `active` mark, hide the cards that do not match, show the placeholder iff none does. */
    method FilterProjects(k: nat)
      requires Valid() && k < |filters|
      modifies this
      ensures Valid()
      ensures enabled ==> active == AfterClick(old(active), k)
      ensures enabled ==> forall i :: 0 <= i < |tags| ==> (hidden[i] <==> !Matches(filters[k], tags[i]))
      ensures enabled ==> placeholder == Present(VisibleCount(filters[k], tags) > 0)
      ensures !enabled ==> active == old(active) && hidden == old(hidden) && placeholder == old(placeholder)
    {
      if !enabled {
        return;
      }
      var previous := FirstActive(active);
      if previous.Some? {
        active := active[previous.value := false];
      }
      active := active[k := true];

      var filterValue := filters[k];
      var visibleCount := 0;
      var i := 0;
      while i < |tags|
        invariant 0 <= i <= |tags| && |hidden| == |tags|
        invariant active == AfterClick(old(active), k) && placeholder == old(placeholder)
        invariant visibleCount == VisibleCount(filterValue, tags[..i])
        invariant forall j :: 0 <= j < i ==> (hidden[j] <==> !Matches(filterValue, tags[j]))
      {
        var isMatch := filterValue == Some("all") || Includes(TagText(tags[i]), FilterText(filterValue));
        hidden := hidden[i := !isMatch];
        if isMatch {
          visibleCount := visibleCount + 1;
        }
        assert tags[..i + 1][..i] == tags[..i];
        i := i + 1;
      }
      assert tags[..i] == tags;
      placeholder := Present(visibleCount > 0);
    }
  }
}
