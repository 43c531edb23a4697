/**
 The location cleaner of the user interface: it tidies the scraped location string before it
 is shown, dropping the list markers and whitespace a page may put in front of it.
 */
module LocationCleaner {
  import opened Text

  /** The glyphs the cleaning expression removes from the front, besides whitespace. Unlike the
      place extractor's set, it holds the middle dot. */
  const LocationGlyphs: set<char> :=
    {'\U{B7}', '\U{2022}', '-', '*', '\U{2192}', '\U{25B6}', '\U{25B8}', '\U{25B9}', '\U{25BB}',
     '\U{25AA}', '\U{25AB}', '\U{25E6}', '\U{2023}', '\U{2043}'}

  predicate IsLocationMark(c: char) {
    IsSpace(c) || c in LocationGlyphs
  }

  /** A location string as the cleaner leaves it: no leading marker or whitespace, no trailing
      whitespace. */
  predicate Clean(s: string) {
    s == [] || (!IsLocationMark(s[0]) && !IsSpace(s[|s| - 1]))
  }

  /** `clean_location_string`: strip, remove the leading run of whitespace and marker glyphs,
      strip again. */
  function CleanLocation(location: string): (r: string)
    ensures location == [] ==> r == []
  {
    if location == [] then [] else Strip(TrimStart(Strip(location), IsLocationMark))
  }

  /** A string made only of markers and whitespace cleans to nothing. */
  lemma CleanLocationAllMarks(s: string)
    requires forall i :: 0 <= i < |s| ==> IsLocationMark(s[i])
    ensures CleanLocation(s) == []
  {
    if s != [] {
      var t := Strip(s);
      StripIsSlice(s);
      var a :| 0 <= a <= |s| - |t| && OccursAt(s, t, a);
      forall i | 0 <= i < |t|
        ensures IsLocationMark(t[i])
      {
        assert t[i] == s[a + i];
      }
      CountLeadingUnique(t, IsLocationMark, |t|);
    }
  }

  /** The first strip of a framed string keeps everything from the first marker-free character on. */
  lemma FirstStripFramed(s: string, a: nat, b: nat) returns (p: nat)
    requires a < b <= |s|
    requires forall i :: 0 <= i < a ==> IsLocationMark(s[i])
    requires !IsLocationMark(s[a])
    requires forall i :: b <= i < |s| ==> IsSpace(s[i])
    requires !IsSpace(s[b - 1])
    ensures p <= a && Strip(s) == s[p..b]
  {
    p := CountLeading(s, IsSpace);
    StripCharacterized(s, p, b);
  }

  /** Trimming the markers off the front of `s[p..b]` leaves `s[a..b]` when only markers come
      before `a` and `s[a]` is none. */
  lemma TrimFramed(s: string, p: nat, a: nat, b: nat)
    requires p <= a < b <= |s|
    requires forall i :: p <= i < a ==> IsLocationMark(s[i])
    requires !IsLocationMark(s[a])
    ensures TrimStart(s[p..b], IsLocationMark) == s[a..b]
  {
    var t := s[p..b];
    assert forall i :: 0 <= i < a - p ==> t[i] == s[p + i];
    assert t[a - p] == s[a];
    CountLeadingUnique(t, IsLocationMark, a - p);
    assert t[a - p..] == s[a..b];
  }

  /** When some character is no marker, the cleaned string runs from the first such character
      to the last character that is no whitespace. */
  lemma CleanLocationFramed(s: string, a: nat, b: nat)
    requires a < b <= |s|
    requires forall i :: 0 <= i < a ==> IsLocationMark(s[i])
    requires !IsLocationMark(s[a])
    requires forall i :: b <= i < |s| ==> IsSpace(s[i])
    requires !IsSpace(s[b - 1])
    ensures CleanLocation(s) == s[a..b]
  {
    var p := FirstStripFramed(s, a, b);
    TrimFramed(s, p, a, b);
    var u := s[a..b];
    assert u[0] == s[a] && u[|u| - 1] == s[b - 1];
    StripCharacterized(u, 0, |u|);
  }

  /** The cleaned string is the stretch of the input from its first character that is no marker
      to its last character that is no whitespace: any indices that frame that stretch give it. */
  lemma CleanLocationCharacterized(s: string, a: nat, b: nat)
    requires a <= b <= |s|
    requires forall i :: 0 <= i < a ==> IsLocationMark(s[i])
    requires a < |s| ==> !IsLocationMark(s[a])
    requires forall i :: b <= i < |s| ==> IsSpace(s[i])
    requires a < b ==> !IsSpace(s[b - 1])
    ensures CleanLocation(s) == s[a..b]
  {
    if a == |s| {
      CleanLocationAllMarks(s);
    } else {
      CleanLocationFramed(s, a, b);
    }
  }

  /** Every string has such a frame: the first character that is no marker, and the end of the
      last character that is no whitespace. */
  lemma FrameOf(s: string) returns (a: nat, b: nat)
    ensures a <= b <= |s|
    ensures forall i :: 0 <= i < a ==> IsLocationMark(s[i])
    ensures a < |s| ==> !IsLocationMark(s[a])
    ensures forall i :: b <= i < |s| ==> IsSpace(s[i])
    ensures a < b ==> !IsSpace(s[b - 1])
    ensures a == |s| || a < b
  {
    a := CountLeading(s, IsLocationMark);
    if a == |s| {
      b := |s|;
    } else {
      b := |s| - CountTrailing(s, IsSpace);
    }
  }

  /** The cleaned string starts with no marker or whitespace, ends with no whitespace, and is a
      contiguous part of the input, so its inner characters are the input's, unchanged. */
  lemma CleanLocationShape(s: string)
    ensures Clean(CleanLocation(s))
    ensures Contains(s, CleanLocation(s))
  {
    var a, b := FrameOf(s);
    CleanLocationCharacterized(s, a, b);
    FrameIsClean(s, a, b);
  }

  /** The stretch a frame marks is clean and is a slice of the string. */
  lemma FrameIsClean(s: string, a: nat, b: nat)
    requires a <= b <= |s|
    requires a < |s| ==> !IsLocationMark(s[a])
    requires a < b ==> !IsSpace(s[b - 1])
    ensures Clean(s[a..b]) && Contains(s, s[a..b])
  {
    var r := s[a..b];
    assert r != [] ==> r[0] == s[a] && r[|r| - 1] == s[b - 1];
    assert OccursAt(s, r, a);
  }

  /** The strings the cleaner leaves alone are exactly the clean ones. */
  lemma CleanLocationFixedPoints(s: string)
    ensures CleanLocation(s) == s <==> Clean(s)
  {
    if Clean(s) {
      CleanLocationCharacterized(s, 0, |s|);
    } else {
      CleanLocationShape(s);
    }
  }

  /** Cleaning twice is cleaning once. */
  lemma CleanLocationIdempotent(s: string)
    ensures CleanLocation(CleanLocation(s)) == CleanLocation(s)
  {
    CleanLocationShape(s);
    CleanLocationFixedPoints(CleanLocation(s));
  }

  /** The cleaner returns the empty string exactly when the input is made only of whitespace and
      markers. */
  lemma CleanLocationEmptyIff(s: string)
    ensures CleanLocation(s) == [] <==> forall i :: 0 <= i < |s| ==> IsLocationMark(s[i])
  {
    var a, b := FrameOf(s);
    CleanLocationCharacterized(s, a, b);
  }

  /** A clean, non-empty location written after indentation and a bullet, with a trailing
      space, cleans back to itself. */
  lemma CleanBulletedLocation(place: string)
    requires place != [] && Clean(place)
    ensures CleanLocation("  \U{2022} " + place + " ") == place
  {
    var s := "  \U{2022} " + place + " ";
    assert s[4] == place[0];
    assert s[4..4 + |place|] == place;
    CleanLocationFramed(s, 4, 4 + |place|);
  }

  /** "  • Yosemite National Park, CA " cleans to "Yosemite National Park, CA". */
  lemma CleanLocationExample()
    ensures CleanLocation("  \U{2022} " + "Yosemite National Park, CA" + " ") == "Yosemite National Park, CA"
  {
    CleanBulletedLocation("Yosemite National Park, CA");
  }
}
