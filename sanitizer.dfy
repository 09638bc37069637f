/** `sanitizeLocationString`: strips the editorial notes that the monitoring
    site appends to a location. Three rules run in turn, each on the result of
    the one before, and each cuts the text at a marker. */
module Sanitizer {
  import opened GoStrings

  /** Start and end of a bracketed note. */
  const NotesStart: string := "["
  const NotesEnd: string := "]"
  /** The note the site adds when the position is only approximate. */
  const ApproximateMarker: string := "LOCALIZAÇÃO APROXIMADA"
  /** The disclaimer the site adds when its administrators edited a report. */
  const EditedMarker: string := "Editado pela Administração por um dos motivos:"

  /** `s` holds a bracketed note: both a `[` and a `]`, in any order. */
  ghost predicate HasNotes(s: string) {
    Contains(s, NotesStart) && Contains(s, NotesEnd)
  }

  /** None of the three rules changes `s`. */
  ghost predicate NoRuleFires(s: string) {
    !HasNotes(s) && !Contains(s, ApproximateMarker) && !Contains(s, EditedMarker)
  }

  /** Rule 1: cut at the first `[`, but only when a `]` occurs as well. */
  function StripNotes(s: string): (r: string)
    ensures IsPrefix(r, s)
    ensures HasNotes(s) ==> |r| < |s| && s[|r|] == '[' && !Contains(r, NotesStart)
    ensures !HasNotes(s) ==> r == s
  {
    var notesStart := IndexOf(s, NotesStart);
    var notesEnd := IndexOf(s, NotesEnd);
    if !(notesStart == -1 || notesEnd == -1) then
      CutBeforeFirstLacks(s, NotesStart, notesStart);
      s[..notesStart]
    else
      s
  }

  /** Rules 2 and 3: cut at the first occurrence of `marker`, if any. */
  function StripMarker(s: string, marker: string): (r: string)
    requires marker != []
    ensures IsPrefix(r, s) && !Contains(r, marker)
    ensures Contains(s, marker) ==> OccursAt(s, marker, |r|) && forall j :: 0 <= j < |r| ==> !OccursAt(s, marker, j)
    ensures !Contains(s, marker) ==> r == s
  {
    var i := IndexOf(s, marker);
    if i != -1 then
      CutBeforeFirstLacks(s, marker, i);
      s[..i]
    else
      s
  }

  /** Go's `sanitizeLocationString`. The result is a prefix of the input
      free of both text markers, free of `[` when the input held a bracketed
      note. `NothingToStrip` states that it is the input itself when no rule
      applies. */
  function SanitizeLocationString(location: string): (r: string)
    ensures IsPrefix(r, location)
    ensures !Contains(r, ApproximateMarker) && !Contains(r, EditedMarker)
    ensures HasNotes(location) ==> !Contains(r, NotesStart)
  {
    var noNotes := StripNotes(location);
    var noApproximate := StripMarker(noNotes, ApproximateMarker);
    var r := StripMarker(noApproximate, EditedMarker);
    PrefixTransitive(noApproximate, noNotes, location);
    PrefixTransitive(r, noApproximate, noNotes);
    PrefixKeepsAbsence(r, noApproximate, ApproximateMarker);
    StaysAbsent(r, noNotes, NotesStart);
    r
  }

  /** A location that none of the three rules applies to is left unchanged. */
  lemma NothingToStrip(location: string)
    requires NoRuleFires(location)
    ensures SanitizeLocationString(location) == location
  {
  }

  lemma PrefixTransitive(a: string, b: string, c: string)
    requires IsPrefix(a, b) && IsPrefix(b, c)
    ensures IsPrefix(a, c)
  {
    assert c[..|a|] == c[..|b|][..|a|];
  }

  lemma StaysAbsent(t: string, s: string, p: string)
    requires IsPrefix(t, s)
    ensures !Contains(s, p) ==> !Contains(t, p)
  {
    if !Contains(s, p) {
      PrefixKeepsAbsence(t, s, p);
    }
  }

  /** A string without a bracketed note keeps lacking one in every prefix. */
  lemma PrefixKeepsNoNotes(t: string, s: string)
    requires IsPrefix(t, s) && !HasNotes(s)
    ensures !HasNotes(t)
  {
    if !Contains(s, NotesStart) {
      PrefixKeepsAbsence(t, s, NotesStart);
    } else {
      PrefixKeepsAbsence(t, s, NotesEnd);
    }
  }

  /** The output of the sanitiser never holds a bracketed note: either the
      first rule removed every `[`, or the input already lacked one bracket
      and the later cuts cannot add it back. */
  lemma {:induction false} SanitizedHasNoNotes(location: string)
    ensures !HasNotes(SanitizeLocationString(location))
  {
    var r := SanitizeLocationString(location);
    if !HasNotes(location) {
      PrefixKeepsNoNotes(r, location);
    }
  }

  /** Sanitising is idempotent: a sanitised location passes through unchanged. */
  lemma {:induction false} SanitizeIdempotent(location: string)
    ensures SanitizeLocationString(SanitizeLocationString(location)) == SanitizeLocationString(location)
  {
    SanitizedHasNoNotes(location);
    NothingToStrip(SanitizeLocationString(location));
  }

  /** Rule 1 needs both brackets: a lone `[` (or a lone `]`) is kept. */
  lemma {:induction false} LoneBracketKept(location: string)
    requires Contains(location, NotesStart) != Contains(location, NotesEnd)
    requires !Contains(location, ApproximateMarker) && !Contains(location, EditedMarker)
    ensures SanitizeLocationString(location) == location
  {
    NothingToStrip(location);
  }

  /** A worked example: a bracketed note is cut at its `[`. */
  lemma BracketExample()
    ensures SanitizeLocationString("Lisboa [nota]") == "Lisboa "
  {
    BracketCut();
    TooShortToContain("Lisboa ", ApproximateMarker);
    TooShortToContain("Lisboa ", EditedMarker);
  }

  /** Rule 1 on the example: the note opens at index 7. */
  lemma BracketCut()
    ensures StripNotes("Lisboa [nota]") == "Lisboa "
  {
    var s := "Lisboa [nota]";
    assert OccursAt(s, NotesEnd, 12);
    assert OccursAt(s, NotesStart, 7);
    var front := "Lisboa ";
    assert '[' !in front;
    assert s[..7] == front;
    FirstOccurrence(s, NotesStart, 7);
  }

  /** A string shorter than `p` cannot contain it. */
  lemma TooShortToContain(s: string, p: string)
    requires |s| < |p|
    ensures !Contains(s, p)
  {
  }

  /** A location made only of a note sanitises to the empty string. */
  lemma NoteOnlyExample()
    ensures SanitizeLocationString("[x]") == ""
  {
    assert OccursAt("[x]", NotesStart, 0);
    assert OccursAt("[x]", NotesEnd, 2);
  }
}
