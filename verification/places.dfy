/**
 The place extractor of the map generator: it reads the generated itinerary text,
 finds the "Places Mentioned" section and turns its bulleted "name - address" lines
 into places to put on the map.
 */
module PlaceExtractor {
  import opened Text

  datatype Place = Place(name: string, address: string)

  /** The section heading the extractor looks for; the match is case-sensitive. */
  const Anchor: string := "Places Mentioned"

  /** The separator between a place's name and its address. */
  const Separator: string := " - "

  /** A line qualifies only if, once stripped, it starts with one of these. */
  const Bullets: set<char> := {'\U{2022}', '-', '*'}

  /** The glyphs the name-cleaning expression removes from the front of a name, besides whitespace. */
  const NameGlyphs: set<char> :=
    {'\U{2022}', '-', '*', '\U{2192}', '\U{25B6}', '\U{25B8}', '\U{25B9}', '\U{25BB}',
     '\U{25AA}', '\U{25AB}', '\U{25E6}', '\U{2023}', '\U{2043}'}

  /** Lower-cased names that are placeholders rather than places. */
  const StopNames: set<string> := {"none", "unknown", "n/a"}

  predicate IsNameMark(c: char) {
    IsSpace(c) || c in NameGlyphs
  }

  /** What every extracted place satisfies. */
  predicate Acceptable(p: Place) {
    && |p.name| > 2
    && |p.address| > 10
    && Lower(p.name) !in StopNames
    && !IsNameMark(p.name[0])
    && Stripped(p.name)
    && Stripped(p.address)
    && !Contains(p.name, Separator)
  }

  /** Python's `s.split(sep, 1)`; Python refuses an empty separator. */
  function SplitOnce(s: string, sep: string): (parts: seq<string>)
    requires sep != []
    ensures 1 <= |parts| <= 2
  {
    var i := Find(s, sep);
    if i == -1 then [s] else [s[..i], s[i + |sep|..]]
  }

  /** `split(sep, 1)` cuts at the first separator: the pieces rebuild the input, and the first
      piece, even extended by all but the last separator character, holds no separator. */
  lemma SplitOnceShape(s: string, sep: string)
    requires sep != []
    ensures |SplitOnce(s, sep)| == 1 <==> !Contains(s, sep)
    ensures |SplitOnce(s, sep)| == 1 ==> SplitOnce(s, sep) == [s]
    ensures |SplitOnce(s, sep)| == 2 ==>
      var parts := SplitOnce(s, sep);
      parts[0] + sep + parts[1] == s && !Contains(parts[0] + sep[..|sep| - 1], sep)
  {
    var i := Find(s, sep);
    if i != -1 {
      assert s == s[..i] + sep + s[i + |sep|..];
      var t := s[..i] + sep[..|sep| - 1];
      assert t == s[..i + |sep| - 1];
      NotContainsBeforeFirst(s, sep, i + |sep| - 1);
    }
  }

  /** A stripped line is a candidate when it starts with a bullet and holds the separator. */
  predicate IsCandidate(line: string) {
    |line| > 0 && line[0] in Bullets && Contains(line, Separator)
  }

  /** The name cleaning: strip, drop the leading run of whitespace and bullet glyphs, strip again. */
  function CleanName(part: string): (r: string)
    ensures Stripped(r)
    ensures |r| <= |part|
  {
    Strip(TrimStart(Strip(part), IsNameMark))
  }

  /** A cleaned name does not start with a mark. */
  lemma CleanNameStart(part: string)
    ensures var name := CleanName(part); name == [] || !IsNameMark(name[0])
  {
    var trimmed := TrimStart(Strip(part), IsNameMark);
    if Strip(trimmed) != [] {
      assert trimmed != [];
      StripKeepsFirst(trimmed);
    }
  }

  /** Cleaning a name adds no separator, provided the raw part followed by " -" holds none. */
  lemma CleanNameNoSeparator(part: string)
    requires !Contains(part + " -", Separator)
    ensures !Contains(CleanName(part), Separator)
  {
    var left := Strip(part);
    var trimmed := TrimStart(left, IsNameMark);
    NotContainsSlice(part + " -", Separator, 0, |part|);
    assert (part + " -")[..|part|] == part;
    StripIsSlice(part);
    NotContainsInPart(part, left, Separator);
    var k := CountLeading(left, IsNameMark);
    assert OccursAt(left, trimmed, k);
    NotContainsInPart(left, trimmed, Separator);
    StripIsSlice(trimmed);
    NotContainsInPart(trimmed, CleanName(part), Separator);
  }

  /** A cleaned name is stripped and does not start with a mark; it holds no separator when the
      raw part, with " -" after it, holds none. */
  lemma CleanNameShape(part: string)
    ensures var name := CleanName(part);
      && Stripped(name)
      && (name == [] || !IsNameMark(name[0]))
      && (!Contains(part + " -", Separator) ==> !Contains(name, Separator))
  {
    CleanNameStart(part);
    if !Contains(part + " -", Separator) {
      CleanNameNoSeparator(part);
    }
  }

  /** The filters a cleaned name and address must pass. */
  function Admit(name: string, address: string): Option<Place> {
    if name != "" && address != "" && |name| > 2 && |address| > 10 && Lower(name) !in StopNames then
      Some(Place(name, address))
    else
      None
  }

  /** One line of the places section: keep it if it is a bulleted "name - address" line whose
      cleaned parts pass the length and placeholder filters. */
  function ParseLine(raw: string): (r: Option<Place>)
    ensures r.Some? ==> IsCandidate(Strip(raw))
    ensures r.Some? ==> |r.value.name| > 2 && |r.value.address| > 10
  {
    var line := Strip(raw);
    if IsCandidate(line) then
      var parts := SplitOnce(line, Separator);
      if |parts| == 2 then Admit(CleanName(parts[0]), Strip(Strip(parts[1]))) else None
    else
      None
  }

  /** Only a line that, once stripped, starts with a bullet and holds the separator yields a
      place, and whatever it yields passes the filters and is cleanly cut at the first
      separator. */
  lemma ParseLineSound(raw: string)
    ensures ParseLine(raw).Some? ==> IsCandidate(Strip(raw))
    ensures ParseLine(raw).Some? ==> Acceptable(ParseLine(raw).value)
  {
    var line := Strip(raw);
    if IsCandidate(line) {
      var parts := SplitOnce(line, Separator);
      SplitOnceShape(line, Separator);
      if |parts| == 2 {
        assert Separator[..|Separator| - 1] == " -";
        CleanNameShape(parts[0]);
      }
    }
  }

  /** The values `f` yields on the elements of `xs`, in order: the list the extraction loop
      builds by appending one place per kept line. */
  function FilterMap<A, B>(xs: seq<A>, f: A -> Option<B>): (r: seq<B>)
    ensures |r| <= |xs|
  {
    if xs == [] then []
    else
      var first := match f(xs[0]) case Some(y) => [y] case None => [];
      first + FilterMap(xs[1..], f)
  }

  /** Order is kept and nothing is merged: the result on two blocks is the two results, concatenated. */
  lemma {:induction false} FilterMapAppend<A, B>(xs: seq<A>, ys: seq<A>, f: A -> Option<B>)
    ensures FilterMap(xs + ys, f) == FilterMap(xs, f) + FilterMap(ys, f)
    decreases |xs|
  {
    if xs != [] {
      assert (xs + ys)[0] == xs[0];
      assert (xs + ys)[1..] == xs[1..] + ys;
      FilterMapAppend(xs[1..], ys, f);
    } else {
      assert xs + ys == ys;
    }
  }

  /** Every line's place, in line order. */
  function ParseLines(lines: seq<string>): (r: seq<Place>)
    ensures |r| <= |lines|
  {
    FilterMap(lines, ParseLine)
  }

  /** MapGenerator._extract_places_from_itinerary. */
  function ExtractPlaces(text: string): (r: seq<Place>)
    ensures !Contains(text, Anchor) ==> r == []
    ensures Contains(text, Anchor) ==> |r| <= |Split(text[Find(text, Anchor)..], '\n')|
  {
    if Contains(text, Anchor) then
      var start := Find(text, Anchor);
      if start != -1 then ParseLines(Split(text[start..], '\n')) else []
    else
      []
  }

  /** If everything `f` yields satisfies `P`, so does every element of the result. */
  lemma {:induction false} FilterMapAll<A, B>(xs: seq<A>, f: A -> Option<B>, P: B -> bool)
    requires forall x :: f(x).Some? ==> P(f(x).value)
    ensures forall k :: 0 <= k < |FilterMap(xs, f)| ==> P(FilterMap(xs, f)[k])
    decreases |xs|
  {
    if xs != [] {
      FilterMapAll(xs[1..], f, P);
    }
  }

  /** Every element of the result is what `f` yields on some element of `xs`. */
  lemma {:induction false} FilterMapFrom<A, B>(xs: seq<A>, f: A -> Option<B>, k: nat)
    requires k < |FilterMap(xs, f)|
    ensures exists i :: 0 <= i < |xs| && f(xs[i]) == Some(FilterMap(xs, f)[k])
    decreases |xs|
  {
    var first := match f(xs[0]) case Some(y) => [y] case None => [];
    assert FilterMap(xs, f) == first + FilterMap(xs[1..], f);
    if k < |first| {
      assert f(xs[0]) == Some(FilterMap(xs, f)[k]);
    } else {
      FilterMapFrom(xs[1..], f, k - |first|);
      var i :| 0 <= i < |xs[1..]| && f(xs[1..][i]) == Some(FilterMap(xs[1..], f)[k - |first|]);
      assert xs[i + 1] == xs[1..][i];
    }
  }

  /** Every place of a block of lines passes the filters. */
  lemma ParseLinesSound(lines: seq<string>)
    ensures forall k :: 0 <= k < |ParseLines(lines)| ==> Acceptable(ParseLines(lines)[k])
  {
    forall x | ParseLine(x).Some?
      ensures Acceptable(ParseLine(x).value)
    {
      ParseLineSound(x);
    }
    FilterMapAll(lines, ParseLine, Acceptable);
  }

  /** Every extracted place has a name of more than two and an address of more than ten
      characters, a name that is no placeholder, starts with no bullet or whitespace and holds no
      separator, and both parts stripped. */
  lemma ExtractedPlacesAcceptable(text: string)
    ensures forall k :: 0 <= k < |ExtractPlaces(text)| ==> Acceptable(ExtractPlaces(text)[k])
  {
    if Contains(text, Anchor) {
      ParseLinesSound(Split(text[Find(text, Anchor)..], '\n'));
    }
  }

  /** Every extracted place comes from a line of the section that, once stripped, starts with a
      bullet and holds the separator, and is exactly what that line parses to. */
  lemma ExtractedPlacesFromBulletedLines(text: string, k: nat)
    requires k < |ExtractPlaces(text)|
    ensures Contains(text, Anchor)
    ensures exists l :: (l in Split(text[Find(text, Anchor)..], '\n')
      && IsCandidate(Strip(l)) && ParseLine(l) == Some(ExtractPlaces(text)[k]))
  {
    var lines := Split(text[Find(text, Anchor)..], '\n');
    FilterMapFrom(lines, ParseLine, k);
    var i :| 0 <= i < |lines| && ParseLine(lines[i]) == Some(ParseLines(lines)[k]);
    assert lines[i] in lines;
  }

  /** Places follow the order of their lines and duplicates are kept:
      the places of two blocks of lines are the places of each, concatenated. */
  lemma ParseLinesAppend(a: seq<string>, b: seq<string>)
    ensures ParseLines(a + b) == ParseLines(a) + ParseLines(b)
  {
    FilterMapAppend(a, b, ParseLine);
  }

  /** A line is kept as often as it appears. */
  lemma DuplicatesKept(line: string, p: Place)
    requires ParseLine(line) == Some(p)
    ensures ParseLines([line, line]) == [p, p]
  {
    FilterMapAppend([line], [line], ParseLine);
    assert [line, line] == [line] + [line];
  }

  /** Text before the first anchor plays no part: only the section from the anchor on is read. */
  lemma OnlyTextAfterAnchorCounts(pre: string, rest: string)
    requires !Contains(pre, Anchor)
    requires StartsWith(rest, Anchor)
    ensures ExtractPlaces(pre + rest) == ExtractPlaces(rest)
  {
    var t := pre + rest;
    assert t[|pre|..] == rest;
    assert rest[0..|Anchor|] == Anchor;
    assert OccursAt(rest, Anchor, 0);
    assert OccursAt(t, Anchor, |pre|) by {
      assert t[|pre|..|pre| + |Anchor|] == rest[0..|Anchor|];
    }
    forall j | 0 <= j < |pre|
      ensures !OccursAt(t, Anchor, j)
    {
      if j + |Anchor| <= |pre| {
        assert !OccursAt(pre, Anchor, j);
        assert t[j..j + |Anchor|] == pre[j..j + |Anchor|];
      } else {
        // The occurrence would straddle the boundary, but 'P' only starts the anchor.
        var k := |pre| - j;
        assert 1 <= k < |Anchor|;
        assert t[|pre|] == rest[0] == 'P';
        assert Anchor[k] != 'P';
      }
    }
    FindIsFirst(t, Anchor, |pre|);
    FindIsFirst(rest, Anchor, 0);
    assert rest[0..] == rest;
  }

  /** The bulleted line the itinerary prompt asks for: optional indentation, a bullet, a space,
      the name, the separator and the address. */
  function BulletLine(indent: string, bullet: char, name: string, address: string): string {
    indent + [bullet, ' '] + name + Separator + address
  }

  /** The conditions under which a name survives being written into a bulleted line:
      it starts with no mark, ends with no whitespace, holds no separator and does not end
      with " -" (which the separator would complete). */
  predicate Writable(name: string) {
    && name != []
    && !IsNameMark(name[0])
    && !IsSpace(name[|name| - 1])
    && !Contains(name, Separator)
    && !EndsWith(name, " -")
  }

  /** No separator starts at index `j` of the name part of a bulleted line. */
  lemma NoSeparatorAt(bullet: char, name: string, address: string, j: nat)
    requires bullet in Bullets && Writable(name)
    requires j < |name| + 2
    ensures !OccursAt([bullet, ' '] + name + Separator + address, Separator, j)
  {
    var n := |name|;
    var body := [bullet, ' '] + name + Separator + address;
    if j == 0 {
      // The bullet is no space.
      assert body[j] != Separator[0];
    } else if j == 1 {
      // The name starts with no dash.
      assert body[j + 1] == name[0];
      assert body[j + 1] != Separator[1];
    } else if j < n {
      // Wholly inside the name, which holds no separator.
      var u, v := body[j..j + 3], name[j - 2..j + 1];
      assert !OccursAt(name, Separator, j - 2);
      assert forall k :: 0 <= k < 3 ==> u[k] == v[k];
      assert u != Separator;
    } else if j == n {
      // The last two characters of the name are not " -".
      var u, v := body[j..j + 2], name[n - 2..];
      assert forall k :: 0 <= k < 2 ==> u[k] == v[k];
      assert v != " -";
      assert u != Separator[..2];
    } else {
      // The separator's own first space sits where its dash would have to be.
      assert body[j + 1] == ' ';
      assert body[j + 1] != Separator[1];
    }
  }

  /** In a bulleted line the first separator is the one written after the name. */
  lemma FirstSeparatorAfterName(bullet: char, name: string, address: string)
    requires bullet in Bullets && Writable(name)
    ensures Find([bullet, ' '] + name + Separator + address, Separator) == |name| + 2
  {
    var n := |name|;
    var body := [bullet, ' '] + name + Separator + address;
    assert OccursAt(body, Separator, n + 2) by {
      assert body[n + 2..n + 5] == Separator;
    }
    forall j | 0 <= j < n + 2
      ensures !OccursAt(body, Separator, j)
    {
      NoSeparatorAt(bullet, name, address, j);
    }
    FindIsFirst(body, Separator, n + 2);
  }

  /** Cleaning "<bullet> <name>" gives back the name. */
  lemma CleanBulletedName(bullet: char, name: string)
    requires bullet in Bullets && Writable(name)
    ensures CleanName([bullet, ' '] + name) == name
  {
    var left := [bullet, ' '] + name;
    assert Strip(left) == left;
    CountLeadingUnique(left, IsNameMark, 2);
    assert left[2..] == name;
  }

  /** A line is read only through its stripped form. */
  lemma ParseLineOfStripped(raw: string, line: string)
    requires Strip(raw) == line && Stripped(line)
    ensures ParseLine(raw) == ParseLine(line)
  {
  }

  /** A stripped candidate line parses to the filtered, cleaned parts of its split. */
  lemma ParseCandidate(line: string, left: string, right: string)
    requires Stripped(line) && IsCandidate(line)
    requires SplitOnce(line, Separator) == [left, right]
    ensures ParseLine(line) == Admit(CleanName(left), Strip(Strip(right)))
  {
  }

  /** An unindented bulleted line is a stripped candidate that splits after the name. */
  lemma BulletBodySplits(bullet: char, name: string, address: string)
    requires bullet in Bullets
    requires Writable(name)
    requires address != [] && Stripped(address)
    ensures var body := [bullet, ' '] + name + Separator + address;
      Stripped(body) && IsCandidate(body)
      && SplitOnce(body, Separator) == [[bullet, ' '] + name, address]
  {
    var body := [bullet, ' '] + name + Separator + address;
    assert Stripped(body) by {
      assert body[0] == bullet;
      assert body[|body| - 1] == address[|address| - 1];
    }
    FirstSeparatorAfterName(bullet, name, address);
    assert IsCandidate(body) by {
      assert body[0] == bullet;
      assert OccursAt(body, Separator, |name| + 2);
    }
    assert SplitOnce(body, Separator) == [[bullet, ' '] + name, address] by {
      assert body[..|name| + 2] == [bullet, ' '] + name;
      assert body[|name| + 5..] == address;
    }
  }

  /** An unindented bulleted line parses to its place, when the place passes the filters. */
  lemma ParseBulletBody(bullet: char, name: string, address: string)
    requires bullet in Bullets
    requires Writable(name)
    requires address != [] && Stripped(address)
    ensures ParseLine([bullet, ' '] + name + Separator + address) == Admit(name, address)
  {
    BulletBodySplits(bullet, name, address);
    ParseCandidate([bullet, ' '] + name + Separator + address, [bullet, ' '] + name, address);
    CleanBulletedName(bullet, name);
  }

  /** Formatting a place as a bulleted line and parsing it back gives the place, exactly when it
      passes the filters. The address may hold further separators: only the first one splits. */
  lemma ParseBulletLine(indent: string, bullet: char, name: string, address: string)
    requires forall i :: 0 <= i < |indent| ==> IsSpace(indent[i])
    requires bullet in Bullets
    requires Writable(name)
    requires address != [] && Stripped(address)
    ensures ParseLine(BulletLine(indent, bullet, name, address)) ==
      if |name| > 2 && |address| > 10 && Lower(name) !in StopNames then Some(Place(name, address)) else None
  {
    var body := [bullet, ' '] + name + Separator + address;
    assert BulletLine(indent, bullet, name, address) == indent + body;
    assert Stripped(body) by {
      assert body[0] == bullet;
      assert body[|body| - 1] == address[|address| - 1];
    }
    StripAfterSpaces(indent, body);
    ParseLineOfStripped(indent + body, body);
    ParseBulletBody(bullet, name, address);
  }

  lemma NoNewlineInBulletLine(bullet: char, name: string, address: string)
    requires '\n' !in name && '\n' !in address && bullet != '\n'
    ensures '\n' !in BulletLine("", bullet, name, address)
  {
  }

  lemma ParseOneLine(line: string)
    ensures ParseLines([line]) == if ParseLine(line).Some? then [ParseLine(line).value] else []
  {
  }

  /** A section holding one bulleted line yields that line's place when it passes the filters,
      and nothing otherwise. */
  lemma SectionOfOneBulletLine(bullet: char, name: string, address: string)
    requires bullet in Bullets && Writable(name) && address != [] && Stripped(address)
    requires '\n' !in name && '\n' !in address
    ensures ExtractPlaces(Anchor + "\n" + BulletLine("", bullet, name, address)) ==
      if |name| > 2 && |address| > 10 && Lower(name) !in StopNames then [Place(name, address)] else []
  {
    var line := BulletLine("", bullet, name, address);
    NoNewlineInBulletLine(bullet, name, address);
    SectionOfTwoLines(line);
    ParseOneLine(line);
    ParseBulletLine("", bullet, name, address);
  }

  /** A heading and one "• name - address" line, written out, is the section of one bulleted
      line. */
  lemma SectionOfWrittenLine(name: string, address: string)
    requires Writable(name) && address != [] && Stripped(address)
    requires '\n' !in name && '\n' !in address
    ensures ExtractPlaces(Anchor + "\n" + "\U{2022} " + name + " - " + address) ==
      if |name| > 2 && |address| > 10 && Lower(name) !in StopNames then [Place(name, address)] else []
  {
    assert Anchor + "\n" + "\U{2022} " + name + " - " + address
        == Anchor + "\n" + BulletLine("", '\U{2022}', name, address);
    SectionOfOneBulletLine('\U{2022}', name, address);
  }

  /** The name and address of the first worked example can be written into a bulleted line and
      pass the filters. They are parameters fixed by the precondition rather than literals in
      the contract, so that the solver does not unfold the filters eagerly on literal text. */
  lemma BlueBottleParts(name: string, address: string)
    requires name == "Blue Bottle Coffee" && address == "123 Main St, Springfield, IL 62701"
    ensures Writable(name) && address != [] && Stripped(address)
    ensures '\n' !in name && '\n' !in address
    ensures |name| > 2 && |address| > 10 && Lower(name) !in StopNames
  {
    NotContainsWithoutChar(name, Separator, 1, '-');
  }

  /** The worked example: under the heading, "• Blue Bottle Coffee - 123 Main St, Springfield,
      IL 62701" yields exactly that place. */
  lemma BlueBottleExample()
    ensures ExtractPlaces(Anchor + "\n" + "\U{2022} " + "Blue Bottle Coffee" + " - " + "123 Main St, Springfield, IL 62701")
      == [Place("Blue Bottle Coffee", "123 Main St, Springfield, IL 62701")]
  {
    BlueBottleParts("Blue Bottle Coffee", "123 Main St, Springfield, IL 62701");
    SectionOfWrittenLine("Blue Bottle Coffee", "123 Main St, Springfield, IL 62701");
  }

  /** The name and address of the second worked example can be written into a bulleted line,
      but the name is too short. As above, they are parameters fixed by the precondition. */
  lemma ShortNameParts(name: string, address: string)
    requires name == "Ab" && address == "123 Main St, Springfield, IL"
    ensures Writable(name) && address != [] && Stripped(address)
    ensures '\n' !in name && '\n' !in address
    ensures |name| <= 2
  {
    NotContainsWithoutChar(name, Separator, 1, '-');
  }

  /** The worked example: under the heading, "• Ab - 123 Main St, Springfield, IL" yields nothing,
      because a two-character name is too short. */
  lemma ShortNameExample()
    ensures ExtractPlaces(Anchor + "\n" + "\U{2022} " + "Ab" + " - " + "123 Main St, Springfield, IL") == []
  {
    ShortNameParts("Ab", "123 Main St, Springfield, IL");
    SectionOfWrittenLine("Ab", "123 Main St, Springfield, IL");
  }

  /** The heading line itself never yields a place: it does not start with a bullet. */
  lemma AnchorLineYieldsNothing()
    ensures ParseLine(Anchor) == None
  {
    assert Strip(Anchor) == Anchor;
    assert Anchor[0] !in Bullets;
  }

  /** A text made of the heading line and one more line reads just that line. */
  lemma SectionOfTwoLines(line: string)
    requires '\n' !in line
    ensures ExtractPlaces(Anchor + "\n" + line) == ParseLines([line])
  {
    var text := Anchor + "\n" + line;
    assert OccursAt(text, Anchor, 0);
    FindIsFirst(text, Anchor, 0);
    assert text[0..] == text;
    assert Join([Anchor, line], '\n') == text;
    SplitJoin([Anchor, line], '\n');
    AnchorLineYieldsNothing();
    FilterMapAppend([Anchor], [line], ParseLine);
    assert [Anchor, line] == [Anchor] + [line];
  }

  /** Joining a head onto a non-empty list puts one separator between the head and the rest. */
  lemma JoinCons(head: string, lines: seq<string>, sep: char)
    requires |lines| >= 1
    ensures Join([head] + lines, sep) == head + [sep] + Join(lines, sep)
  {
    assert ([head] + lines)[1..] == lines;
  }

  /** A text that opens with the heading has its first heading at the start. */
  lemma AnchorAtStart(rest: string)
    ensures Contains(Anchor + rest, Anchor) && Find(Anchor + rest, Anchor) == 0
  {
    var text := Anchor + rest;
    assert OccursAt(text, Anchor, 0);
    FindIsFirst(text, Anchor, 0);
  }

  /** The heading followed by joined lines splits back into the heading line and those lines. */
  lemma SectionSplits(lines: seq<string>)
    requires |lines| >= 1
    requires forall k :: 0 <= k < |lines| ==> '\n' !in lines[k]
    ensures Split(Anchor + "\n" + Join(lines, '\n'), '\n') == [Anchor] + lines
  {
    var all := [Anchor] + lines;
    assert '\n' !in Anchor;
    forall k | 0 <= k < |all|
      ensures '\n' !in all[k]
    {
      if k > 0 {
        assert all[k] == lines[k - 1];
      }
    }
    JoinCons(Anchor, lines, '\n');
    SplitJoin(all, '\n');
  }

  /** A text whose first heading is at its start is read line by line from its start. */
  lemma ExtractFromStart(text: string)
    requires Contains(text, Anchor) && Find(text, Anchor) == 0
    ensures ExtractPlaces(text) == ParseLines(Split(text, '\n'))
  {
    assert text[0..] == text;
  }

  /** A line that yields nothing adds nothing in front of the rest. */
  lemma FilterMapSkip<A, B>(x: A, xs: seq<A>, f: A -> Option<B>)
    requires f(x).None?
    ensures FilterMap([x] + xs, f) == FilterMap(xs, f)
  {
    assert ([x] + xs)[1..] == xs;
  }

  /** The whole section under the heading is read: every line after it yields its place, in line
      order, with nothing dropped, merged or reordered. */
  lemma SectionOfLines(lines: seq<string>)
    requires |lines| >= 1
    requires forall k :: 0 <= k < |lines| ==> '\n' !in lines[k]
    ensures ExtractPlaces(Anchor + "\n" + Join(lines, '\n')) == ParseLines(lines)
  {
    AnchorAtStart("\n" + Join(lines, '\n'));
    assert Anchor + "\n" + Join(lines, '\n') == Anchor + ("\n" + Join(lines, '\n'));
    ExtractFromStart(Anchor + "\n" + Join(lines, '\n'));
    SectionSplits(lines);
    AnchorLineYieldsNothing();
    FilterMapSkip(Anchor, lines, ParseLine);
  }

  /** Under the heading, a line written twice yields its place twice, in the extraction itself. */
  lemma SectionDuplicatesKept(line: string, p: Place)
    requires '\n' !in line
    requires ParseLine(line) == Some(p)
    ensures ExtractPlaces(Anchor + "\n" + Join([line, line], '\n')) == [p, p]
  {
    var lines := [line, line];
    assert forall k :: 0 <= k < |lines| ==> lines[k] == line;
    SectionOfLines(lines);
    DuplicatesKept(line, p);
  }

  /** Under the heading, the places of two blocks of lines are those of the first block followed
      by those of the second: a later line never yields a place ahead of an earlier one. */
  lemma SectionInLineOrder(a: seq<string>, b: seq<string>)
    requires |a| >= 1 && |b| >= 1
    requires forall k :: 0 <= k < |a| ==> '\n' !in a[k]
    requires forall k :: 0 <= k < |b| ==> '\n' !in b[k]
    ensures ExtractPlaces(Anchor + "\n" + Join(a + b, '\n')) ==
      ExtractPlaces(Anchor + "\n" + Join(a, '\n')) + ExtractPlaces(Anchor + "\n" + Join(b, '\n'))
  {
    forall k | 0 <= k < |a + b|
      ensures '\n' !in (a + b)[k]
    {
      if k >= |a| {
        assert (a + b)[k] == b[k - |a|];
      }
    }
    SectionOfLines(a + b);
    SectionOfLines(a);
    SectionOfLines(b);
    ParseLinesAppend(a, b);
  }

  /** Under the heading, a "name - address" line without a bullet yields nothing, however well
      its parts would pass the filters. */
  lemma UnbulletedLineYieldsNothing(name: string, address: string)
    requires Writable(name) && address != [] && Stripped(address)
    requires '\n' !in name && '\n' !in address
    ensures ExtractPlaces(Anchor + "\n" + name + " - " + address) == []
  {
    var line := name + " - " + address;
    assert Anchor + "\n" + name + " - " + address == Anchor + "\n" + line;
    assert line[0] == name[0] && line[|line| - 1] == address[|address| - 1];
    assert line[0] !in Bullets;
    SectionOfTwoLines(line);
    ParseOneLine(line);
  }

  /** The worked example without its bullet: "Blue Bottle Coffee - 123 Main St, Springfield,
      IL 62701" under the heading yields no place. */
  lemma UnbulletedExample()
    ensures ExtractPlaces(Anchor + "\n" + "Blue Bottle Coffee" + " - " + "123 Main St, Springfield, IL 62701") == []
  {
    BlueBottleParts("Blue Bottle Coffee", "123 Main St, Springfield, IL 62701");
    UnbulletedLineYieldsNothing("Blue Bottle Coffee", "123 Main St, Springfield, IL 62701");
  }
}
