/** The loop of `fetch_last_speed_controls` that turns the scraped panels
    into speed-control records: panels without a location are skipped, the
    others keep their district and date text and have their location
    sanitised. The scraping itself (the headless browser and its selectors)
    is not part of this model; its output is the sequence of panels. */
module SpeedControls {
  import opened GoStrings
  import opened Sanitizer

  /** Go's `SpeedControl`: the three text fields of one panel of the page. */
  datatype SpeedControl = SpeedControl(district: string, createdDatetime: string, location: string)

  /** The record built from a panel that has a location: the same district
      and date text, the location sanitised. */
  function Normalize(panel: SpeedControl): (r: SpeedControl)
    ensures r.district == panel.district && r.createdDatetime == panel.createdDatetime
    ensures IsPrefix(r.location, panel.location)
    ensures !HasNotes(r.location) && !Contains(r.location, ApproximateMarker) && !Contains(r.location, EditedMarker)
  {
    SanitizedHasNoNotes(panel.location);
    SpeedControl(panel.district, panel.createdDatetime, SanitizeLocationString(panel.location))
  }

  /** What one panel contributes, for a normalisation `norm` of records:
      nothing when its location is empty, otherwise its normalised record.
      The program's own normalisation is `Normalize`. */
  function KeepOne(panel: SpeedControl, norm: SpeedControl -> SpeedControl): seq<SpeedControl> {
    if panel.location == "" then [] else [norm(panel)]
  }

  /** The filter for any normalisation: every panel in order contributes
      `KeepOne`. */
  function KeepLocatedBy(panels: seq<SpeedControl>, norm: SpeedControl -> SpeedControl): (r: seq<SpeedControl>)
    ensures |r| <= |panels|
  {
    if panels == [] then [] else KeepOne(panels[0], norm) + KeepLocatedBy(panels[1..], norm)
  }

  /** Specification of the loop: the filter with the program's
      normalisation. */
  function KeepLocated(panels: seq<SpeedControl>): (r: seq<SpeedControl>)
    ensures |r| <= |panels|
  {
    KeepLocatedBy(panels, Normalize)
  }

  /** Keeping distributes over concatenation: the records of a list of panels
      are the records of its parts, in the same order. */
  lemma {:induction false} KeepLocatedAppend(a: seq<SpeedControl>, b: seq<SpeedControl>, norm: SpeedControl -> SpeedControl)
    ensures KeepLocatedBy(a + b, norm) == KeepLocatedBy(a, norm) + KeepLocatedBy(b, norm)
  {
    if a != [] {
      var front := KeepOne(a[0], norm);
      assert (a + b)[0] == a[0] && (a + b)[1..] == a[1..] + b;
      assert KeepLocatedBy(a + b, norm) == front + KeepLocatedBy(a[1..] + b, norm);
      KeepLocatedAppend(a[1..], b, norm);
      assert front + (KeepLocatedBy(a[1..], norm) + KeepLocatedBy(b, norm))
          == (front + KeepLocatedBy(a[1..], norm)) + KeepLocatedBy(b, norm);
    } else {
      assert a + b == b;
    }
  }

  lemma KeepLocatedSingle(panel: SpeedControl, norm: SpeedControl -> SpeedControl)
    ensures KeepLocatedBy([panel], norm) == KeepOne(panel, norm)
  {
    assert [panel][1..] == [];
  }

  /** One more panel adds what that panel contributes. */
  lemma KeepLocatedStep(panels: seq<SpeedControl>, i: int, norm: SpeedControl -> SpeedControl)
    requires 0 <= i < |panels|
    ensures KeepLocatedBy(panels[..i + 1], norm) == KeepLocatedBy(panels[..i], norm) + KeepOne(panels[i], norm)
  {
    assert panels[..i + 1] == panels[..i] + [panels[i]];
    KeepLocatedAppend(panels[..i], [panels[i]], norm);
    KeepLocatedSingle(panels[i], norm);
  }

  /** Go's `fetch_last_speed_controls` after the page has been scraped. */
  method FetchLastSpeedControls(panels: seq<SpeedControl>) returns (sc: seq<SpeedControl>)
    ensures sc == KeepLocated(panels)
  {
    sc := [];
    for i := 0 to |panels|
      invariant sc == KeepLocated(panels[..i])
    {
      var panel := panels[i];
      KeepLocatedStep(panels, i, Normalize);
      if panel.location == "" {
        continue;
      }
      var location := SanitizeLocationString(panel.location);
      sc := sc + [SpeedControl(panel.district, panel.createdDatetime, location)];
    }
    assert panels[..|panels|] == panels;
  }

  /** Each kept record comes from a panel with a non-empty location: the
      `j`-th one, normalised. */
  lemma {:induction false} KeptRecordSource(panels: seq<SpeedControl>, norm: SpeedControl -> SpeedControl, k: int) returns (j: int)
    requires 0 <= k < |KeepLocatedBy(panels, norm)|
    ensures 0 <= j < |panels| && panels[j].location != "" && KeepLocatedBy(panels, norm)[k] == norm(panels[j])
  {
    var rest := KeepLocatedBy(panels[1..], norm);
    assert KeepLocatedBy(panels, norm) == KeepOne(panels[0], norm) + rest;
    if panels[0].location == "" {
      var i := KeptRecordSource(panels[1..], norm, k);
      j := i + 1;
    } else if k > 0 {
      var i := KeptRecordSource(panels[1..], norm, k - 1);
      j := i + 1;
    } else {
      j := 0;
    }
  }

  /** The converse: every panel with a non-empty location is kept, whatever
      it normalises to, because the emptiness test is made on the raw
      location. */
  lemma {:induction false} KeptIfLocated(panels: seq<SpeedControl>, norm: SpeedControl -> SpeedControl, j: int)
    requires 0 <= j < |panels| && panels[j].location != ""
    ensures norm(panels[j]) in KeepLocatedBy(panels, norm)
  {
    assert panels != [];
    if j == 0 {
      assert KeepOne(panels[0], norm) == [norm(panels[0])];
    } else {
      KeptIfLocated(panels[1..], norm, j - 1);
      assert panels[1..][j - 1] == panels[j];
    }
  }

  /** Every kept record's location is sanitised: no bracketed note, no
      approximate-location note, no edit disclaimer. */
  lemma {:induction false} KeptLocationsClean(panels: seq<SpeedControl>)
    ensures forall k :: 0 <= k < |KeepLocated(panels)| ==>
      var loc := KeepLocated(panels)[k].location;
      !HasNotes(loc) && !Contains(loc, ApproximateMarker) && !Contains(loc, EditedMarker)
  {
    forall k | 0 <= k < |KeepLocated(panels)|
      ensures !HasNotes(KeepLocated(panels)[k].location)
    {
      var j := KeptRecordSource(panels, Normalize, k);
      SanitizedHasNoNotes(panels[j].location);
    }
    forall k | 0 <= k < |KeepLocated(panels)|
      ensures !Contains(KeepLocated(panels)[k].location, ApproximateMarker)
      ensures !Contains(KeepLocated(panels)[k].location, EditedMarker)
    {
      var j := KeptRecordSource(panels, Normalize, k);
    }
  }

  /** The emptiness test is made on the raw text, before sanitising: a
      location that is only a note is kept, as an empty location. */
  lemma NoteOnlyLocationKept(district: string, createdDatetime: string)
    ensures KeepLocated([SpeedControl(district, createdDatetime, "[x]")]) == [SpeedControl(district, createdDatetime, "")]
  {
    NoteOnlyExample();
  }
}
