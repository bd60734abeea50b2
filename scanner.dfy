/**
 * The presentation scanner: it lists the presentation source files of one
 * directory, pulls the `export const metadata = { ... }` block out of each,
 * counts its `<Slide` components and builds the `Presentation` record.
 *
 * The directory is a sequence of files in the order the file system lists
 * them.  A file's text is `None` when it cannot be read as UTF-8, and its
 * creation and modification times are given already rendered in ISO form.
 */
module Scanner {
  import opened Wrappers
  import opened Text
  import opened Schemas

  datatype SourceFile = SourceFile(name: string, content: Option<string>, created: string, modified: string)

  /** The extensions tried, in order of priority. */
  const Extensions: seq<string> := [".tsx", ".jsx", ".ts", ".js"]

  // ---------------------------------------------------------------------------
  // Counting slides: the pattern `<Slide[\s>]`
  // ---------------------------------------------------------------------------

  /** A `<Slide` tag followed by whitespace or `>` starts at `p`. */
  predicate SlideTagAt(s: string, p: int)
  {
    OccursAt(s, "<Slide", p) && p + 6 < |s| && (IsSpace(s[p + 6]) || s[p + 6] == '>')
  }

  /** `re.findall` from `p`: after a match the search resumes behind it. */
  function FindAllSlideTags(s: string, p: nat): nat
    decreases |s| - p
  {
    if p >= |s| then 0
    else if SlideTagAt(s, p) then 1 + FindAllSlideTags(s, p + 7)
    else FindAllSlideTags(s, p + 1)
  }

  /** The number of slides in a presentation's source text. */
  function CountSlides(content: string): nat
  {
    FindAllSlideTags(content, 0)
  }

  /** The number of positions at or after `p` where a slide tag starts. */
  function TagPositions(s: string, p: nat): nat
    decreases |s| - p
  {
    if p >= |s| then 0 else (if SlideTagAt(s, p) then 1 else 0) + TagPositions(s, p + 1)
  }

  /** Two slide tags never overlap: none starts inside another. */
  lemma TagsDoNotOverlap(s: string, p: int, q: int)
    requires SlideTagAt(s, p) && p < q < p + 7
    ensures !SlideTagAt(s, q)
  {
    assert s[q] != '<' by {
      if q < p + 6 {
        assert s[q] == s[p..p + 6][q - p];
      }
    }
    if q + 6 <= |s| {
      assert s[q..q + 6][0] == s[q];
    }
  }

  /** Skipping the seven characters of a tag skips no other tag. */
  lemma TagPositionsAfterTag(s: string, p: nat)
    requires SlideTagAt(s, p)
    ensures TagPositions(s, p + 1) == TagPositions(s, p + 7)
  {
    var q := p + 6;
    while q > p
      invariant p <= q <= p + 6
      invariant TagPositions(s, q + 1) == TagPositions(s, p + 7)
    {
      TagsDoNotOverlap(s, p, q);
      q := q - 1;
    }
  }

  /** Scanning left to right finds every tag position. */
  lemma {:induction false} FindAllIsTagPositions(s: string, p: nat)
    ensures FindAllSlideTags(s, p) == TagPositions(s, p)
    decreases |s| - p
  {
    if p < |s| {
      if SlideTagAt(s, p) {
        FindAllIsTagPositions(s, p + 7);
        TagPositionsAfterTag(s, p);
      } else {
        FindAllIsTagPositions(s, p + 1);
      }
    }
  }

  /** `CountSlides` counts the positions where `<Slide` is followed by whitespace or `>`. */
  lemma CountSlidesCountsTags(content: string)
    ensures CountSlides(content) == TagPositions(content, 0)
  {
    FindAllIsTagPositions(content, 0);
  }

  /** With no `<` at or after `p` there is no slide from `p` on. */
  lemma {:induction false} NoTagWithoutOpening(s: string, p: nat)
    requires forall k :: p <= k < |s| ==> s[k] != '<'
    ensures FindAllSlideTags(s, p) == 0
    decreases |s| - p
  {
    if p < |s| {
      if p + 6 <= |s| {
        assert s[p..p + 6][0] == s[p];
      }
      NoTagWithoutOpening(s, p + 1);
    }
  }

  /** A bare `<Slide>` tag is a slide. */
  lemma BareTagIsSlide()
    ensures CountSlides("<Slide>") == 1
  {
  }

  /** A tag with attributes is a slide. */
  lemma TagWithAttributesIsSlide()
    ensures CountSlides("<Slide a>") == 1
  {
    var s := "<Slide a>";
    assert SlideTagAt(s, 0);
    NoTagWithoutOpening(s, 7);
  }

  /** A component whose name only starts with `Slide` is not a slide. */
  lemma LongerNameIsNotSlide()
    ensures CountSlides("<SlideFrame>") == 0
  {
    var s := "<SlideFrame>";
    assert !SlideTagAt(s, 0) by {
      assert s[6] == 'F';
    }
    NoTagWithoutOpening(s, 1);
  }

  /** A closing tag is not a slide. */
  lemma ClosingTagIsNotSlide()
    ensures CountSlides("</Slide>") == 0
  {
    var s := "</Slide>";
    assert !SlideTagAt(s, 0) by {
      assert s[0..6][1] == '/';
    }
    NoTagWithoutOpening(s, 1);
  }

  // ---------------------------------------------------------------------------
  // Finding the metadata block: `export\s+const\s+metadata\s*=\s*\{([^}]+)\}`
  // ---------------------------------------------------------------------------

  /** The first index at or after `i` whose character is not whitespace. */
  function SkipSpaces(s: string, i: nat): (j: nat)
    requires i <= |s|
    ensures i <= j <= |s| && (j == |s| || !IsSpace(s[j]))
    decreases |s| - i
  {
    if i < |s| && IsSpace(s[i]) then SkipSpaces(s, i + 1) else i
  }

  /** The index of the first `}` at or after `i`. */
  function FindClose(s: string, i: nat): (r: Option<nat>)
    requires i <= |s|
    ensures r.Some? ==> i <= r.value < |s| && s[r.value] == '}'
    decreases |s| - i
  {
    if i == |s| then None else if s[i] == '}' then Some(i) else FindClose(s, i + 1)
  }

  /** Between `i` and the brace `FindClose` finds (or the end) there is no `}`. */
  lemma {:induction false} FindCloseIsFirst(s: string, i: nat)
    requires i <= |s|
    ensures var r := FindClose(s, i);
      forall k :: i <= k < (if r.Some? then r.value else |s|) ==> s[k] != '}'
    decreases |s| - i
  {
    if i < |s| && s[i] != '}' {
      FindCloseIsFirst(s, i + 1);
    }
  }

  /** The text from `i` up to the brace `FindClose` finds holds no `}`. */
  lemma NoCloseBefore(s: string, i: nat)
    requires i <= |s| && FindClose(s, i).Some?
    ensures '}' !in s[i..FindClose(s, i).value]
  {
    FindCloseIsFirst(s, i);
    var g := s[i..FindClose(s, i).value];
    forall k | 0 <= k < |g|
      ensures g[k] != '}'
    {
      assert g[k] == s[i + k];
    }
  }

  /**
   * The text `\{([^}]+)\}` captures when it matches at `d`: the brace must be
   * followed by at least one character other than `}` before the first `}`.
   */
  function BraceGroup(s: string, d: nat): (r: Option<string>)
    requires d <= |s|
    ensures r.Some? ==> r.value != [] && '}' !in r.value
  {
    if !OccursAt(s, "{", d) then None
    else
      match FindClose(s, d + 1)
      case None => None
      case Some(e) =>
        if e == d + 1 then None
        else
          NoCloseBefore(s, d + 1);
          Some(s[d + 1..e])
  }

  /**
   * The text the pattern captures when it matches at `p`.  The pattern
   * matches deterministically: each whitespace run is followed by a
   * character that is not whitespace, so a shorter run cannot be followed by
   * the next literal, and `[^}]+` must stop at the first `}`.
   */
  function MetadataBlockAt(s: string, p: nat): Option<string>
    requires p <= |s|
  {
    if !OccursAt(s, "export", p) then None
    else
      var a := SkipSpaces(s, p + 6);
      if a == p + 6 || !OccursAt(s, "const", a) then None
      else
        var b := SkipSpaces(s, a + 5);
        if b == a + 5 || !OccursAt(s, "metadata", b) then None
        else
          var c := SkipSpaces(s, b + 8);
          if !OccursAt(s, "=", c) then None
          else BraceGroup(s, SkipSpaces(s, c + 1))
  }

  /** The captured text is never empty and holds no `}`. */
  lemma MetadataBlockShape(s: string, p: nat)
    requires p <= |s| && MetadataBlockAt(s, p).Some?
    ensures var g := MetadataBlockAt(s, p).value; g != [] && '}' !in g
  {
    var a := SkipSpaces(s, p + 6);
    var b := SkipSpaces(s, a + 5);
    var c := SkipSpaces(s, b + 8);
    assert MetadataBlockAt(s, p) == BraceGroup(s, SkipSpaces(s, c + 1));
  }

  /** `re.search` from `p`: the capture of the leftmost match at or after `p`. */
  function SearchFrom(s: string, p: nat): Option<string>
    requires p <= |s|
    decreases |s| - p
  {
    var m := MetadataBlockAt(s, p);
    if m.Some? then m else if p == |s| then None else SearchFrom(s, p + 1)
  }

  function SearchMetadataBlock(content: string): Option<string>
  {
    SearchFrom(content, 0)
  }

  /** The search reports the capture at the leftmost position where the pattern matches, or that there is none. */
  lemma {:induction false} SearchFromIsLeftmost(s: string, p: nat)
    requires p <= |s|
    ensures SearchFrom(s, p).None? ==> forall q :: p <= q <= |s| ==> MetadataBlockAt(s, q).None?
    ensures SearchFrom(s, p).Some? ==>
      exists q :: (p <= q <= |s| && MetadataBlockAt(s, q) == SearchFrom(s, p)
        && forall q' :: p <= q' < q ==> MetadataBlockAt(s, q').None?)
    decreases |s| - p
  {
    if MetadataBlockAt(s, p).None? && p < |s| {
      SearchFromIsLeftmost(s, p + 1);
      if SearchFrom(s, p).Some? {
        var q :| p + 1 <= q <= |s| && MetadataBlockAt(s, q) == SearchFrom(s, p + 1)
          && forall q' :: p + 1 <= q' < q ==> MetadataBlockAt(s, q').None?;
        assert forall q' :: p <= q' < q ==> MetadataBlockAt(s, q').None?;
      }
    } else if MetadataBlockAt(s, p).Some? {
      assert MetadataBlockAt(s, p) == SearchFrom(s, p);
    }
  }

  // ---------------------------------------------------------------------------
  // Reading the metadata block line by line
  // ---------------------------------------------------------------------------

  const Quotes: set<char> := {'"', '\''}

  /** A key: the text before the first `:`, stripped. */
  function KeyOf(text: string): string
  {
    Strip(text)
  }

  /** A value: the text after the first `:`, stripped, without trailing commas, then without surrounding quotes. */
  function ValueOf(text: string): string
  {
    StripChars(RStrip(Strip(text), {','}), Quotes)
  }

  /**
   * The key and value one line of the block contributes: the line is
   * stripped, it must hold a `:`, and it is split at the first one.
   */
  function LineEntry(line: string): Option<(string, string)>
  {
    var stripped := Strip(line);
    if ':' !in stripped then None
    else
      var keyValue := SplitOnce(stripped, ':');
      if |keyValue| != 2 then None else Some((KeyOf(keyValue[0]), ValueOf(keyValue[1])))
  }

  /** The entries of the lines, one per line. */
  function Entries(lines: seq<string>): (entries: seq<Option<(string, string)>>)
    ensures |entries| == |lines|
  {
    seq(|lines|, k requires 0 <= k < |lines| => LineEntry(lines[k]))
  }

  /** The dictionary after storing one entry, if the line gave one. */
  function Put(m: map<string, string>, entry: Option<(string, string)>): map<string, string>
  {
    match entry
    case None => m
    case Some(kv) => m[kv.0 := kv.1]
  }

  /** The dictionary built from `entries` in order, a later key replacing an earlier one. */
  function Collect(entries: seq<Option<(string, string)>>): map<string, string>
  {
    if entries == [] then map[] else Put(Collect(entries[..|entries| - 1]), entries[|entries| - 1])
  }

  /** Collecting one more entry stores it over what the earlier ones gave. */
  lemma CollectStep(entries: seq<Option<(string, string)>>, i: nat)
    requires i < |entries|
    ensures Collect(entries[..i + 1]) == Put(Collect(entries[..i]), entries[i])
  {
    assert entries[..i + 1][..i] == entries[..i];
  }

  /** The metadata of a source text: empty when it has no metadata block. */
  function MetadataOf(content: string): map<string, string>
  {
    match SearchMetadataBlock(content)
    case None => map[]
    case Some(block) => Collect(Entries(Split(block, '\n')))
  }

  /** Extracts the metadata dictionary of a source text, line by line. */
  method ExtractMetadata(content: string) returns (metadata: map<string, string>)
    ensures metadata == MetadataOf(content)
    ensures SearchMetadataBlock(content).None? ==> metadata == map[]
  {
    var block := SearchMetadataBlock(content);
    if block.None? {
      return map[];
    }
    var lines := Split(block.value, '\n');
    ghost var entries := Entries(lines);
    metadata := map[];
    var i := 0;
    while i < |lines|
      invariant 0 <= i <= |lines|
      invariant metadata == Collect(entries[..i])
    {
      CollectStep(entries, i);
      assert entries[i] == LineEntry(lines[i]);
      ghost var before := metadata;
      var line := Strip(lines[i]);
      if ':' in line {
        var keyValue := SplitOnce(line, ':');
        if |keyValue| == 2 {
          var key := Strip(keyValue[0]);
          var value := RStrip(Strip(keyValue[1]), {','});
          value := StripChars(value, Quotes);
          assert LineEntry(lines[i]) == Some((key, value));
          metadata := metadata[key := value];
        }
      } else {
        assert LineEntry(lines[i]) == None;
      }
      assert metadata == Put(before, LineEntry(lines[i]));
      assert metadata == Collect(entries[..i + 1]);
      i := i + 1;
    }
    assert entries[..|lines|] == entries;
  }

  /** A key without surrounding whitespace and without `:`. */
  predicate CleanKey(k: string)
  {
    && (k == [] || (!IsSpace(k[0]) && !IsSpace(k[|k| - 1])))
    && ':' !in k
  }

  /** A value that neither begins nor ends with a quote. */
  predicate CleanValue(v: string)
  {
    v == [] || (v[0] !in Quotes && v[|v| - 1] !in Quotes)
  }

  /** An entry whose key and value are clean. */
  predicate CleanEntry(entry: Option<(string, string)>)
  {
    entry.Some? ==> CleanKey(entry.value.0) && CleanValue(entry.value.1)
  }

  /** Every entry a line contributes has a clean key and a clean value. */
  lemma LineEntryClean(line: string)
    ensures CleanEntry(LineEntry(line))
  {
    var stripped := Strip(line);
    if ':' in stripped {
      var keyValue := SplitOnce(stripped, ':');
      var key := KeyOf(keyValue[0]);
      var value := ValueOf(keyValue[1]);
      assert LineEntry(line) == Some((key, value));
      assert key == StripChars(keyValue[0], Whitespace);
      StripCharsEnds(keyValue[0], Whitespace);
      StripCharsKeepsOut(keyValue[0], Whitespace, ':');
      assert key == [] || (key[0] !in Whitespace && key[|key| - 1] !in Whitespace);
      var trimmed := RStrip(Strip(keyValue[1]), {','});
      assert value == StripChars(trimmed, Quotes);
      StripCharsEnds(trimmed, Quotes);
      assert value == [] || (value[0] !in Quotes && value[|value| - 1] !in Quotes);
      assert CleanValue(value);
    }
  }

  /** Collecting clean entries gives clean keys and values. */
  lemma {:induction false} CollectClean(entries: seq<Option<(string, string)>>)
    requires forall k :: 0 <= k < |entries| ==> CleanEntry(entries[k])
    ensures var m := Collect(entries);
      forall key :: key in m ==> CleanKey(key) && CleanValue(m[key])
  {
    if entries != [] {
      var init := entries[..|entries| - 1];
      assert forall k :: 0 <= k < |init| ==> init[k] == entries[k];
      CollectClean(init);
      assert CleanEntry(entries[|entries| - 1]);
    }
  }

  /** Every key of a source text's metadata is clean, and so is every value. */
  lemma MetadataClean(content: string)
    ensures var m := MetadataOf(content);
      forall key :: key in m ==> CleanKey(key) && CleanValue(m[key])
  {
    if SearchMetadataBlock(content).Some? {
      var lines := Split(SearchMetadataBlock(content).value, '\n');
      var entries := Entries(lines);
      forall k | 0 <= k < |entries|
        ensures CleanEntry(entries[k])
      {
        LineEntryClean(lines[k]);
      }
      CollectClean(entries);
    }
  }

  /** The keys collected are exactly the keys some entry carries. */
  lemma {:induction false} CollectKeys(entries: seq<Option<(string, string)>>, key: string)
    ensures key in Collect(entries) <==>
      exists k :: 0 <= k < |entries| && entries[k].Some? && entries[k].value.0 == key
  {
    if entries != [] {
      var init := entries[..|entries| - 1];
      CollectKeys(init, key);
      if exists k :: 0 <= k < |entries| && entries[k].Some? && entries[k].value.0 == key {
        var k :| 0 <= k < |entries| && entries[k].Some? && entries[k].value.0 == key;
        if k < |entries| - 1 {
          assert init[k] == entries[k];
        }
      }
      if exists k :: 0 <= k < |init| && init[k].Some? && init[k].value.0 == key {
        var k :| 0 <= k < |init| && init[k].Some? && init[k].value.0 == key;
        assert entries[k] == init[k];
      }
    }
  }

  /** A key takes the value of the last entry that names it. */
  lemma {:induction false} LastEntryWins(entries: seq<Option<(string, string)>>, i: nat, key: string, value: string)
    requires i < |entries| && entries[i] == Some((key, value))
    requires forall j :: i < j < |entries| ==> entries[j].None? || entries[j].value.0 != key
    ensures key in Collect(entries) && Collect(entries)[key] == value
  {
    if i < |entries| - 1 {
      var init := entries[..|entries| - 1];
      assert init[i] == entries[i];
      forall j | i < j < |init|
        ensures init[j].None? || init[j].value.0 != key
      {
        assert init[j] == entries[j];
      }
      LastEntryWins(init, i, key, value);
    }
  }

  // ---------------------------------------------------------------------------
  // Building the presentation record
  // ---------------------------------------------------------------------------

  /** The index of the last `.` in `name`, or -1. */
  function LastDot(name: string): (i: int)
    ensures -1 <= i < |name|
    ensures i >= 0 ==> name[i] == '.'
  {
    if name == [] then -1 else if name[|name| - 1] == '.' then |name| - 1 else LastDot(name[..|name| - 1])
  }

  /** No `.` follows the one `LastDot` finds. */
  lemma {:induction false} LastDotIsLast(name: string)
    ensures forall k :: LastDot(name) < k < |name| ==> name[k] != '.'
  {
    if name != [] && name[|name| - 1] != '.' {
      var init := name[..|name| - 1];
      LastDotIsLast(init);
      forall k | LastDot(name) < k < |name| - 1
        ensures name[k] != '.'
      {
        assert name[k] == init[k];
      }
    }
  }

  /** The file name without its suffix, as `Path.stem` computes it. */
  function Stem(name: string): string
  {
    var i := LastDot(name);
    if 0 < i < |name| - 1 then name[..i] else name
  }

  /** The stem of `id` followed by a supported extension is `id`. */
  lemma StemDropsExtension(id: string, e: nat)
    requires id != [] && e < |Extensions|
    ensures Stem(id + Extensions[e]) == id
  {
    var name := id + Extensions[e];
    LastDotIsLast(name);
    assert name[|id|] == '.';
    forall k | |id| < k < |name|
      ensures name[k] != '.'
    {
      assert name[k] == Extensions[e][k - |id|];
    }
    assert LastDot(name) == |id|;
    assert name[..|id|] == id;
  }

  /** The title used when the metadata gives none: `-` and `_` become spaces, then title case. */
  function DefaultTitle(stem: string): string
  {
    Title(ReplaceChar(ReplaceChar(stem, '-', ' '), '_', ' '))
  }

  /** The default title keeps the stem's length, and its dashes and underscores become spaces. */
  lemma DefaultTitleSpaces(stem: string)
    ensures |DefaultTitle(stem)| == |stem|
    ensures forall k :: 0 <= k < |stem| && (stem[k] == '-' || stem[k] == '_') ==> DefaultTitle(stem)[k] == ' '
  {
    var spaced := ReplaceChar(ReplaceChar(stem, '-', ' '), '_', ' ');
    TitleFromCharacters(spaced, false);
    assert DefaultTitle(stem) == TitleFrom(spaced, false);
    forall k | 0 <= k < |stem| && (stem[k] == '-' || stem[k] == '_')
      ensures DefaultTitle(stem)[k] == ' '
    {
      var titled := TitleFrom(spaced, false);
      assert spaced[k] == ' ';
      assert titled[k] == if (if k == 0 then false else IsCased(spaced[k - 1])) then ToLower(spaced[k]) else ToUpper(spaced[k]);
      assert ToLower(' ') == ' ' && ToUpper(' ') == ' ';
    }
  }

  /** The presentation a file yields, or `None` when it has no metadata, no slide or cannot be read. */
  function ParsedPresentation(file: SourceFile): Option<Presentation>
  {
    match file.content
    case None => None
    case Some(content) =>
      var metadata := MetadataOf(content);
      if metadata == map[] then None
      else
        var stem := Stem(file.name);
        var id := if "id" in metadata then metadata["id"] else stem;
        var title := if "title" in metadata then metadata["title"] else DefaultTitle(stem);
        var description := if "description" in metadata then Some(metadata["description"]) else None;
        var created := if "createdAt" in metadata then metadata["createdAt"] else file.created;
        var updated := if "updatedAt" in metadata then metadata["updatedAt"] else file.modified;
        match MakePresentation(id, title, description, CountSlides(content), created, updated, "presentations/" + file.name)
        case Success(p) => Some(p)
        case Failure(_) => None
  }

  /**
   * A file yields a presentation exactly when it can be read, has metadata and
   * holds at least one slide; the presentation then carries the slide count,
   * the metadata's fields over the defaults and the relative path.
   */
  lemma ParsedPresentationFields(file: SourceFile)
    ensures ParsedPresentation(file).Some? <==>
      file.content.Some? && MetadataOf(file.content.value) != map[] && CountSlides(file.content.value) >= 1
    ensures ParsedPresentation(file).Some? ==>
      var p := ParsedPresentation(file).value;
      var metadata := MetadataOf(file.content.value);
      && ValidPresentation(p)
      && p.slideCount == CountSlides(file.content.value)
      && p.id == (if "id" in metadata then metadata["id"] else Stem(file.name))
      && p.title == (if "title" in metadata then metadata["title"] else DefaultTitle(Stem(file.name)))
      && (p.description.Some? <==> "description" in metadata)
      && (p.description.Some? ==> p.description.value == metadata["description"])
      && p.createdAt == (if "createdAt" in metadata then metadata["createdAt"] else file.created)
      && p.updatedAt == (if "updatedAt" in metadata then metadata["updatedAt"] else file.modified)
      && p.filePath == "presentations/" + file.name
  {
  }

  /** Parses one presentation file. */
  method ParsePresentationFile(file: SourceFile) returns (r: Option<Presentation>)
    ensures r == ParsedPresentation(file)
  {
    if file.content.None? {
      return None;
    }
    var content := file.content.value;
    var metadata := ExtractMetadata(content);
    if metadata == map[] {
      return None;
    }
    var slideCount := CountSlides(content);
    var createdAt := file.created;
    var updatedAt := file.modified;
    var stem := Stem(file.name);
    var id := if "id" in metadata then metadata["id"] else stem;
    var title := if "title" in metadata then metadata["title"] else DefaultTitle(stem);
    var description := if "description" in metadata then Some(metadata["description"]) else None;
    if "createdAt" in metadata {
      createdAt := metadata["createdAt"];
    }
    if "updatedAt" in metadata {
      updatedAt := metadata["updatedAt"];
    }
    var built := MakePresentation(id, title, description, slideCount, createdAt, updatedAt, "presentations/" + file.name);
    if built.Failure? {
      return None;
    }
    return Some(built.value);
  }

  // ---------------------------------------------------------------------------
  // Listing the directory
  // ---------------------------------------------------------------------------

  /** `name` matches the glob `*` followed by `ext`. */
  predicate HasExtension(name: string, ext: string)
  {
    |ext| <= |name| && name[|name| - |ext|..] == ext
  }

  /**
   * What one file contributes to the listing for `ext` when files are parsed
   * with `parse`; the scanner parses with `ParsedPresentation`.
   */
  function Found(f: SourceFile, ext: string, parse: SourceFile -> Option<Presentation>): seq<Presentation>
  {
    if HasExtension(f.name, ext) && parse(f).Some? then [parse(f).value] else []
  }

  /** The presentations of the files in `files` that match `ext`, in order. */
  function ScannedWith(files: seq<SourceFile>, ext: string, parse: SourceFile -> Option<Presentation>): seq<Presentation>
  {
    if files == [] then [] else ScannedWith(files[..|files| - 1], ext, parse) + Found(files[|files| - 1], ext, parse)
  }

  /** The listing after the first `e` extensions. */
  function ScannedUpTo(dir: seq<SourceFile>, e: nat, parse: SourceFile -> Option<Presentation>): seq<Presentation>
    requires e <= |Extensions|
  {
    if e == 0 then [] else ScannedUpTo(dir, e - 1, parse) + ScannedWith(dir, Extensions[e - 1], parse)
  }

  /** Scanning one more file adds what that file contributes. */
  lemma ScannedWithStep(files: seq<SourceFile>, f: nat, ext: string, parse: SourceFile -> Option<Presentation>)
    requires f < |files|
    ensures ScannedWith(files[..f + 1], ext, parse) == ScannedWith(files[..f], ext, parse) + Found(files[f], ext, parse)
  {
    assert files[..f + 1][..f] == files[..f];
  }

  /** The presentations of the files matching `*` followed by `ext`, in directory order. */
  method ScanExtension(dir: seq<SourceFile>, ext: string) returns (found: seq<Presentation>)
    ensures found == ScannedWith(dir, ext, ParsedPresentation)
  {
    found := [];
    for f := 0 to |dir|
      invariant found == ScannedWith(dir[..f], ext, ParsedPresentation)
    {
      ScannedWithStep(dir, f, ext, ParsedPresentation);
      if HasExtension(dir[f].name, ext) {
        var presentation := ParsePresentationFile(dir[f]);
        if presentation.Some? {
          found := found + [presentation.value];
        }
      }
    }
    assert dir[..|dir|] == dir;
  }

  /** Lists every presentation of the directory, extension by extension. */
  method ScanAll(dir: seq<SourceFile>) returns (presentations: seq<Presentation>)
    ensures presentations == ScannedUpTo(dir, |Extensions|, ParsedPresentation)
  {
    presentations := [];
    for e := 0 to |Extensions|
      invariant presentations == ScannedUpTo(dir, e, ParsedPresentation)
    {
      var found := ScanExtension(dir, Extensions[e]);
      presentations := presentations + found;
    }
  }

  /** The presentations found for `ext` are those of the matching files that parse. */
  lemma {:induction false} ScannedWithMembers(
    files: seq<SourceFile>, ext: string, parse: SourceFile -> Option<Presentation>, p: Presentation)
    ensures p in ScannedWith(files, ext, parse) <==>
      exists f :: f in files && HasExtension(f.name, ext) && parse(f) == Some(p)
  {
    if files != [] {
      var init := files[..|files| - 1];
      var last := files[|files| - 1];
      ScannedWithMembers(init, ext, parse, p);
      assert files == init + [last];
      if exists f :: f in files && HasExtension(f.name, ext) && parse(f) == Some(p) {
        var f :| f in files && HasExtension(f.name, ext) && parse(f) == Some(p);
        if f != last {
          assert f in init;
        }
      }
    }
  }

  /** A file with one of the `e` first extensions. */
  predicate ListedUpTo(name: string, e: nat)
    requires e <= |Extensions|
  {
    exists x :: 0 <= x < e && HasExtension(name, Extensions[x])
  }

  /**
   * The listing holds exactly the presentations of the files that have a
   * supported extension and parse; files that do not parse are skipped.
   */
  lemma {:induction false} ScannedUpToMembers(
    dir: seq<SourceFile>, e: nat, parse: SourceFile -> Option<Presentation>, p: Presentation)
    requires e <= |Extensions|
    ensures p in ScannedUpTo(dir, e, parse) <==>
      exists f :: f in dir && ListedUpTo(f.name, e) && parse(f) == Some(p)
  {
    if e > 0 {
      ScannedUpToMembers(dir, e - 1, parse, p);
      ScannedWithMembers(dir, Extensions[e - 1], parse, p);
      if exists f :: f in dir && ListedUpTo(f.name, e) && parse(f) == Some(p) {
        var f :| f in dir && ListedUpTo(f.name, e) && parse(f) == Some(p);
        var x :| 0 <= x < e && HasExtension(f.name, Extensions[x]);
        if x < e - 1 {
          assert ListedUpTo(f.name, e - 1);
        }
      }
      if exists f :: f in dir && ListedUpTo(f.name, e - 1) && parse(f) == Some(p) {
        var f :| f in dir && ListedUpTo(f.name, e - 1) && parse(f) == Some(p);
        var x :| 0 <= x < e - 1 && HasExtension(f.name, Extensions[x]);
        assert ListedUpTo(f.name, e);
      }
    }
  }

  /**
   * `scan_all` lists exactly the presentations of the files that have one of
   * the four extensions and parse.
   */
  lemma ScanAllMembers(dir: seq<SourceFile>, p: Presentation)
    ensures p in ScannedUpTo(dir, |Extensions|, ParsedPresentation) <==>
      exists f :: f in dir && ListedUpTo(f.name, |Extensions|) && ParsedPresentation(f) == Some(p)
  {
    ScannedUpToMembers(dir, |Extensions|, ParsedPresentation, p);
  }

  // ---------------------------------------------------------------------------
  // Looking a presentation up by id
  // ---------------------------------------------------------------------------

  predicate FileExists(dir: seq<SourceFile>, name: string)
  {
    exists f :: f in dir && f.name == name
  }

  /** The file called `name`. */
  function FileNamed(dir: seq<SourceFile>, name: string): (f: SourceFile)
    requires FileExists(dir, name)
    ensures f in dir && f.name == name
  {
    if dir[0].name == name then dir[0]
    else
      assert FileExists(dir[1..], name) by {
        var f :| f in dir && f.name == name;
        assert f in dir[1..];
      }
      FileNamed(dir[1..], name)
  }

  /** The index of the first extension at or after `e` under which `id` names a file. */
  function FirstExtensionFrom(dir: seq<SourceFile>, id: string, e: nat): Option<nat>
    requires e <= |Extensions|
    decreases |Extensions| - e
  {
    if e == |Extensions| then None
    else if FileExists(dir, id + Extensions[e]) then Some(e)
    else FirstExtensionFrom(dir, id, e + 1)
  }

  /** The file name `get_file_path` settles on. */
  function FirstExisting(dir: seq<SourceFile>, id: string): Option<string>
  {
    match FirstExtensionFrom(dir, id, 0)
    case None => None
    case Some(e) => Some(id + Extensions[e])
  }

  /**
   * Extensions are tried in priority order: the name found is the id with the
   * first extension under which a file exists, and there is none exactly when
   * no extension gives an existing file.
   */
  lemma {:induction false} FirstExtensionFromIsFirst(dir: seq<SourceFile>, id: string, e: nat)
    requires e <= |Extensions|
    ensures var r := FirstExtensionFrom(dir, id, e);
      && (r.None? <==> forall x :: e <= x < |Extensions| ==> !FileExists(dir, id + Extensions[x]))
      && (r.Some? ==>
            && e <= r.value < |Extensions| && FileExists(dir, id + Extensions[r.value])
            && forall x :: e <= x < r.value ==> !FileExists(dir, id + Extensions[x]))
    decreases |Extensions| - e
  {
    if e < |Extensions| && !FileExists(dir, id + Extensions[e]) {
      FirstExtensionFromIsFirst(dir, id, e + 1);
    }
  }

  /** The path of the presentation file for `id`, by extension priority. */
  method GetFilePath(dir: seq<SourceFile>, id: string) returns (path: Option<string>)
    ensures path == FirstExisting(dir, id)
  {
    for e := 0 to |Extensions|
      invariant FirstExtensionFrom(dir, id, 0) == FirstExtensionFrom(dir, id, e)
    {
      var name := id + Extensions[e];
      if FileExists(dir, name) {
        return Some(name);
      }
    }
    return None;
  }

  /** The presentation whose file is named `id` plus an extension, if there is one. */
  method GetById(dir: seq<SourceFile>, id: string) returns (r: Option<Presentation>)
    ensures FirstExisting(dir, id).None? ==> r.None?
    ensures FirstExisting(dir, id).Some? ==> r == ParsedPresentation(FileNamed(dir, FirstExisting(dir, id).value))
  {
    for e := 0 to |Extensions|
      invariant FirstExtensionFrom(dir, id, 0) == FirstExtensionFrom(dir, id, e)
    {
      var name := id + Extensions[e];
      if FileExists(dir, name) {
        r := ParsePresentationFile(FileNamed(dir, name));
        return;
      }
    }
    return None;
  }
}
