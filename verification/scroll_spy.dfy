/**
 Scroll spy: on every scroll, the last section (in document order) whose
 top is at most 100 pixels below the scroll offset becomes current, and
 exactly the navigation links pointing at `#` + its id are highlighted.
 */
module ScrollSpy {

  import opened Wrappers

  /** How far above a section's top the section already counts as reached. */
  const Lead: real := 100.0

  /** A section's `id` attribute (`None` when absent, read as `null`) and its `offsetTop`. */
  datatype Section = Section(id: Option<string>, top: real)

  /** The value of `current`: a string, or `null` from a section without an id. */
  datatype Current = Str(s: string) | Null

  predicate Reached(sec: Section, y: real) {
    y >= sec.top - Lead
  }

  function IdValue(sec: Section): Current {
    match sec.id
    case None => Null
    case Some(v) => Str(v)
  }

  /** Index of the last reached section, if any. */
  function LastReached(sections: seq<Section>, y: real): (r: Option<nat>)
    ensures r.Some? ==> r.value < |sections| && Reached(sections[r.value], y)
    ensures r.Some? ==> forall k :: r.value < k < |sections| ==> !Reached(sections[k], y)
    ensures r.None? <==> forall k :: 0 <= k < |sections| ==> !Reached(sections[k], y)
    decreases |sections|
  {
    if |sections| == 0 then None
    else if Reached(sections[|sections| - 1], y) then Some(|sections| - 1)
    else LastReached(sections[..|sections| - 1], y)
  }

  /** The scroll handler's first loop, in document order as written. */
  method CurrentSection(sections: seq<Section>, y: real) returns (current: Current)
    ensures LastReached(sections, y).None? ==> current == Str("")
    ensures LastReached(sections, y).Some? ==> current == IdValue(sections[LastReached(sections, y).value])
  {
    current := Str("");
    var k := 0;
    while k < |sections|
      invariant 0 <= k <= |sections|
      invariant LastReached(sections[..k], y).None? ==> current == Str("")
      invariant LastReached(sections[..k], y).Some? ==> current == IdValue(sections[LastReached(sections[..k], y).value])
    {
      assert sections[..k + 1][..k] == sections[..k];
      if Reached(sections[k], y) {
        current := IdValue(sections[k]);
      }
      k := k + 1;
    }
    assert sections[..k] == sections;
  }

  /** The text of the template literal `` `#${current}` ``. */
  function Fragment(c: Current): string {
    match c
    case Str(s) => "#" + s
    case Null => "#null"
  }

  /**
   The second loop: every link loses `active`, then gains it back exactly
   when its `href` attribute equals the fragment; the old flags do not matter.
   */
  function Highlight(was: seq<bool>, hrefs: seq<Option<string>>, c: Current): (active: seq<bool>)
    requires |was| == |hrefs|
    ensures |active| == |hrefs|
    ensures forall k :: 0 <= k < |hrefs| ==> (active[k] <==> hrefs[k] == Some(Fragment(c)))
  {
    seq(|hrefs|, k requires 0 <= k < |hrefs| => hrefs[k] == Some(Fragment(c)))
  }

  /**
   The handler's second loop as written: starting from the links' current
   flags, each link in turn loses `active` and then regains it if its `href`
   equals the fragment. The result is `Highlight`, whatever the old flags.
   */
  method HighlightLinks(was: seq<bool>, hrefs: seq<Option<string>>, c: Current) returns (active: seq<bool>)
    requires |was| == |hrefs|
    ensures active == Highlight(was, hrefs, c)
    ensures forall k :: 0 <= k < |hrefs| ==> (active[k] <==> hrefs[k] == Some(Fragment(c)))
  {
    active := was;
    var k := 0;
    while k < |hrefs|
      invariant 0 <= k <= |hrefs| && |active| == |hrefs|
      invariant forall j :: 0 <= j < k ==> (active[j] <==> hrefs[j] == Some(Fragment(c)))
    {
      active := active[k := false];
      if hrefs[k] == Some(Fragment(c)) {
        active := active[k := true];
      }
      k := k + 1;
    }
  }

  /** Scrolling further down never makes an earlier section current. */
  lemma {:induction false} ScrollDownNeverMovesBack(sections: seq<Section>, y: real, y': real)
    requires y <= y' && LastReached(sections, y).Some?
    ensures LastReached(sections, y').Some?
    ensures LastReached(sections, y).value <= LastReached(sections, y').value
  {
    var i := LastReached(sections, y).value;
    assert Reached(sections[i], y');
  }

  /** A section without an id makes exactly the links to `#null` active. */
  lemma NullIdHighlightsHashNull(was: seq<bool>, hrefs: seq<Option<string>>, k: nat)
    requires |was| == |hrefs| && k < |hrefs|
    ensures Highlight(was, hrefs, Null)[k] <==> hrefs[k] == Some("#null")
  {
  }
}
