/** Reading the language model's reply (`parse_response`): single-valued
    tags with their defaults, and the `<file path=… mode=…>` elements that
    make up a change bundle. */
module Response {
  import opened Opt
  import opened Text

  /** One proposed file: its path as written by the model, the mode
      ("create" or anything else), and the new content. */
  datatype FileEdit = FileEdit(path: string, mode: string, content: string)

  datatype Parsed = Parsed(
    action: string,
    target: string,
    files: seq<FileEdit>,
    loreEntry: string,
    patchNotes: string,
    learning: string,
    curatedLearnings: string,
    oracleQuestion: string)

  // ---------------------------------------------------------------------------
  // Tags
  // ---------------------------------------------------------------------------

  function OpenTag(tag: string): string {
    "<" + tag + ">"
  }

  function CloseTag(tag: string): string {
    "</" + tag + ">"
  }

  /** `<tag>(.*?)</tag>` searched with DOTALL: the text between the first
      opening tag and the first closing tag after it. If the first opening
      tag has no closing tag after it, no later one has either. */
  function ExtractTag(s: string, tag: string): (r: Option<string>)
    ensures r.Some? ==> !Contains(r.value, CloseTag(tag))
    ensures !Contains(s, OpenTag(tag)) ==> r.None?
  {
    match FindFrom(s, OpenTag(tag), 0)
    case None => None
    case Some(i) =>
      var from := i + |OpenTag(tag)|;
      match FindFrom(s, CloseTag(tag), from)
      case None => None
      case Some(j) =>
        ContainsIff(s, OpenTag(tag));
        FindFromSpec(s, CloseTag(tag), from);
        NotInSlice(s, CloseTag(tag), from, j);
        Some(s[from..j])
  }

  /** The stripped tag value, or `default` when the tag is absent. */
  function TagValue(s: string, tag: string, default: string): string {
    match ExtractTag(s, tag)
    case None => default
    case Some(g) => Strip(g)
  }

  /** Both tags of a name without '>' end with their only '>'. */
  lemma TagsEndOnce(tag: string)
    requires '>' !in tag
    ensures EndsOnlyWith(OpenTag(tag), '>') && EndsOnlyWith(CloseTag(tag), '>')
  {
    assert OpenTag(tag) == ['<'] + tag + ['>'];
    assert CloseTag(tag) == ['<', '/'] + tag + ['>'];
  }

  /** A tag written around a value reads back as the stripped value, when
      the opening tag does not occur before it and the closing tag does not
      occur inside the value. */
  lemma TagRoundTrip(pre: string, tag: string, x: string, post: string, default: string)
    requires '>' !in tag
    requires !Contains(pre, OpenTag(tag)) && !Contains(x, CloseTag(tag))
    ensures TagValue(Concat([pre, OpenTag(tag), x, CloseTag(tag), post]), tag, default) == Strip(x)
  {
    TagExtracted(pre, tag, x, post);
  }

  lemma TagExtracted(pre: string, tag: string, x: string, post: string)
    requires '>' !in tag
    requires !Contains(pre, OpenTag(tag)) && !Contains(x, CloseTag(tag))
    ensures ExtractTag(Concat([pre, OpenTag(tag), x, CloseTag(tag), post]), tag) == Some(x)
  {
    var ps := [pre, OpenTag(tag), x, CloseTag(tag), post];
    var s := Concat(ps);
    TagsEndOnce(tag);
    assert Offset(ps, 0) == 0;
    FindNextPart(ps, 0, '>', OpenTag(tag), 0, Offset(ps, 1));
    FindNextPart(ps, 2, '>', CloseTag(tag), Offset(ps, 2), Offset(ps, 3));
    ExtractTagAt(s, tag, Offset(ps, 1), Offset(ps, 2), Offset(ps, 3));
    PartSlice(ps, 2);
  }

  /** Where the first opening tag and the first closing tag after it lie
      fixes the extracted value. */
  lemma ExtractTagAt(s: string, tag: string, i: nat, from: nat, j: nat)
    requires FindFrom(s, OpenTag(tag), 0) == Some(i) && from == i + |OpenTag(tag)|
    requires FindFrom(s, CloseTag(tag), from) == Some(j)
    ensures from <= j <= |s| && ExtractTag(s, tag) == Some(s[from..j])
  {
  }

  /** A reply without the opening tag takes the default. */
  lemma MissingTagDefault(s: string, tag: string, default: string)
    requires !Contains(s, OpenTag(tag))
    ensures TagValue(s, tag, default) == default
  {
  }

  // ---------------------------------------------------------------------------
  // File elements
  // ---------------------------------------------------------------------------

  /** The tokens of a file element: the pattern reads them and the prompt
      asks the model to write them. */
  datatype FileSyntax = FileSyntax(
    open: string,      // "<file"
    gap: string,       // the whitespace written after it
    pathAttr: string,  // "path=\""
    pathEnd: string,   // the closing quote and the whitespace after it
    modeAttr: string,  // "mode=\""
    headEnd: string,   // "\">"
    close: string)     // "</file>"

  const Syntax: FileSyntax := FileSyntax("<file", " ", "path=\"", "\" ", "mode=\"", "\">", "</file>")

  /** What the round trip needs of the tokens: whitespace where the pattern
      has `\s+`, a quote ending the path and the mode, attributes that do
      not begin with whitespace, and a closing tag ending with its only
      '>'. */
  predicate Readable(w: FileSyntax) {
    && |w.gap| == 1 && IsSpace(w.gap[0])
    && w.pathAttr != [] && !IsSpace(w.pathAttr[0])
    && |w.pathEnd| == 2 && w.pathEnd[0] == '"' && IsSpace(w.pathEnd[1])
    && w.modeAttr != [] && !IsSpace(w.modeAttr[0])
    && w.headEnd != [] && w.headEnd[0] == '"'
    && EndsOnlyWith(w.close, '>')
  }

  lemma SyntaxReadable()
    ensures Readable(Syntax)
  {
    assert Syntax.close == "</file>";
  }

  datatype FileHit = FileHit(edit: FileEdit, end: nat)

  /** Where the parts of one file element lie: the path is `s[a..pe]`, the
      mode `s[b..me]` and the content runs from after the head to `k`. */
  datatype FileSpan = FileSpan(a: nat, pe: nat, b: nat, me: nat, k: nat)

  /** The parts of a span lie in order from `lo`, within a string of length
      `n`. */
  predicate Ordered(w: FileSyntax, t: FileSpan, lo: nat, n: nat) {
    lo <= t.a < t.pe < t.b <= t.me && t.me + |w.headEnd| <= t.k && t.k + |w.close| <= n
  }

  /** `<file\s+path="` at `p`: the index where the path begins. */
  function PathStart(w: FileSyntax, s: string, p: nat): (r: Option<nat>)
    requires p <= |s|
    ensures r.Some? ==> p < r.value <= |s|
  {
    if !OccursAt(s, w.open, p) then None
    else
      var i := p + |w.open|;
      var a := SkipSpace(s, i);
      if a == i || !OccursAt(s, w.pathAttr, a) then None else Some(a + |w.pathAttr|)
  }

  /** `[^"]+` followed by a quote, from `a`: the index of that quote. */
  function QuotedEnd(s: string, a: nat): (r: Option<nat>)
    requires a <= |s|
    ensures r.Some? ==> a < r.value < |s| && s[r.value] == '"'
  {
    var e := RunUntil(s, a, '"', '"');
    if e == a || e == |s| then None else Some(e)
  }

  /** `\s+mode="` from `i`: the index where the mode begins. */
  function ModeStart(w: FileSyntax, s: string, i: nat): (r: Option<nat>)
    requires i <= |s|
    ensures r.Some? ==> i < r.value <= |s|
  {
    var b := SkipSpace(s, i);
    if b == i || !OccursAt(s, w.modeAttr, b) then None else Some(b + |w.modeAttr|)
  }

  /** `<file\s+path="([^"]+)"\s+mode="([^"]+)">(.*?)</file>` anchored at
      `p`. Each greedy run ends at a character outside its class, so there is
      only one way to match at `p`, read left to right. */
  function SpanAt(w: FileSyntax, s: string, p: nat): (r: Option<FileSpan>)
    requires p <= |s|
    ensures r.Some? ==> Ordered(w, r.value, p + 1, |s|)
  {
    match PathStart(w, s, p)
    case None => None
    case Some(a) =>
      match QuotedEnd(s, a)
      case None => None
      case Some(pe) =>
        match ModeStart(w, s, pe + 1)
        case None => None
        case Some(b) =>
          match QuotedEnd(s, b)
          case None => None
          case Some(me) =>
            match HeadEndAt(w, s, me)
            case None => None
            case Some(c) =>
              match FindFrom(s, w.close, c)
              case None => None
              case Some(k) => Some(FileSpan(a, pe, b, me, k))
  }

  /** `">` at `me`: the index where the content begins. */
  function HeadEndAt(w: FileSyntax, s: string, me: nat): (r: Option<nat>)
    ensures r.Some? ==> r.value == me + |w.headEnd| <= |s|
  {
    if OccursAt(s, w.headEnd, me) then Some(me + |w.headEnd|) else None
  }

  /** Where each part of the pattern ends, for a match at the start of
      `s`: the path begins at `a` and its quote is at `pe`, the mode begins
      at `b` and its quote is at `me`, the content begins at `c`, and the
      closing tag is at `k`. */
  predicate PartsEnd(w: FileSyntax, s: string, a: nat, pe: nat, b: nat, me: nat, c: nat, k: nat) {
    && PathStart(w, s, 0) == Some(a) && a <= |s| && QuotedEnd(s, a) == Some(pe)
    && ModeStart(w, s, pe + 1) == Some(b) && QuotedEnd(s, b) == Some(me)
    && HeadEndAt(w, s, me) == Some(c) && FindFrom(s, w.close, c) == Some(k)
  }

  /** The match is fixed by where each part of the pattern ends. */
  lemma SpanFrom(w: FileSyntax, s: string, a: nat, pe: nat, b: nat, me: nat, c: nat, k: nat)
    requires PartsEnd(w, s, a, pe, b, me, c, k)
    ensures SpanAt(w, s, 0) == Some(FileSpan(a, pe, b, me, k))
  {
  }

  /** The match at `p`, read off its span: path and mode stripped, content
      with its surrounding newlines dropped. */
  function FileAt(s: string, p: nat): (r: Option<FileHit>)
    requires p <= |s|
    ensures r.Some? ==> p < r.value.end <= |s|
    ensures r.Some? <==> SpanAt(Syntax, s, p).Some?
  {
    match SpanAt(Syntax, s, p)
    case None => None
    case Some(t) => Some(HitOf(Syntax, s, t))
  }

  function HitOf(w: FileSyntax, s: string, t: FileSpan): (h: FileHit)
    requires Ordered(w, t, 0, |s|)
    ensures h.end == t.k + |w.close|
  {
    FileHit(FileEdit(Strip(s[t.a..t.pe]), Strip(s[t.b..t.me]), StripNewlines(s[t.me + |w.headEnd|..t.k])), t.k + |w.close|)
  }

  /** `re.finditer` of the file pattern from index `pos`. */
  function FilesFrom(s: string, pos: nat): (r: seq<FileEdit>)
    requires pos <= |s|
    decreases |s| - pos
    ensures |r| <= |s| - pos
  {
    if pos == |s| then []
    else match FileAt(s, pos)
      case Some(h) => [h.edit] + FilesFrom(s, h.end)
      case None => FilesFrom(s, pos + 1)
  }

  // ---------------------------------------------------------------------------
  // Rendering and reading back
  // ---------------------------------------------------------------------------

  /** The pieces of a file element as the model is asked to write it, and
      whatever text follows it. */
  function Parts(w: FileSyntax, e: FileEdit, rest: string): seq<string> {
    [w.open, w.gap, w.pathAttr, e.path, w.pathEnd, w.modeAttr, e.mode, w.headEnd, e.content, w.close, rest]
  }

  /** One file element on its own. */
  function FileElement(e: FileEdit): string {
    Concat(Parts(Syntax, e, []))
  }

  /** What an edit must avoid for its element to read back: an empty or
      quoted path or mode, or content holding the closing tag. */
  predicate Writable(w: FileSyntax, e: FileEdit) {
    && e.path != [] && '"' !in e.path
    && e.mode != [] && '"' !in e.mode
    && !Contains(e.content, w.close)
  }

  /** Two characters, whitespace then not, end a whitespace run. */
  lemma SkipOneSpace(s: string, i: nat)
    requires i + 1 < |s| && IsSpace(s[i]) && !IsSpace(s[i + 1])
    ensures SkipSpace(s, i) == i + 1
  {
  }

  /** `ps` holds the pieces of the element for `e` in order, then any
      text. */
  predicate Rendered(w: FileSyntax, e: FileEdit, ps: seq<string>) {
    && |ps| == 11
    && ps[0] == w.open && ps[1] == w.gap && ps[2] == w.pathAttr && ps[3] == e.path
    && ps[4] == w.pathEnd && ps[5] == w.modeAttr && ps[6] == e.mode && ps[7] == w.headEnd
    && ps[8] == e.content && ps[9] == w.close
  }

  // What a rendered element offers each part of the pattern, read off its
  // pieces.

  lemma PathStartFacts(w: FileSyntax, e: FileEdit, ps: seq<string>)
    requires Readable(w) && Rendered(w, e, ps)
    ensures PathStart(w, Concat(ps), 0) == Some(Offset(ps, 3))
  {
    var s := Concat(ps);
    PartOccurs(ps, 0);
    OffsetNext(ps, 0);
    OffsetNext(ps, 1);
    OffsetNext(ps, 2);
    PartChar(ps, 1, 0);
    PartChar(ps, 2, 0);
    SkipOneSpace(s, Offset(ps, 1));
    PartOccurs(ps, 2);
  }

  /** A quoted value ends at its closing quote. */
  lemma QuotedFacts(ps: seq<string>, i: nat)
    requires i + 1 < |ps| && ps[i] != [] && '"' !in ps[i] && ps[i + 1] != [] && ps[i + 1][0] == '"'
    ensures Offset(ps, i) <= |Concat(ps)| && QuotedEnd(Concat(ps), Offset(ps, i)) == Some(Offset(ps, i + 1))
  {
    var s := Concat(ps);
    var a := Offset(ps, i);
    var pe := Offset(ps, i + 1);
    OffsetNext(ps, i);
    forall x | a <= x < pe ensures x < |s| && s[x] != '"' {
      PartChar(ps, i, x - a);
    }
    PartChar(ps, i + 1, 0);
    RunUntilStops(s, a, pe, '"');
  }

  lemma ModeStartFacts(w: FileSyntax, e: FileEdit, ps: seq<string>)
    requires Readable(w) && Rendered(w, e, ps)
    ensures Offset(ps, 4) + 1 <= |Concat(ps)| && ModeStart(w, Concat(ps), Offset(ps, 4) + 1) == Some(Offset(ps, 6))
  {
    var s := Concat(ps);
    OffsetNext(ps, 4);
    OffsetNext(ps, 5);
    PartChar(ps, 4, 1);
    PartChar(ps, 5, 0);
    SkipOneSpace(s, Offset(ps, 4) + 1);
    PartOccurs(ps, 5);
  }

  lemma HeadEndFacts(w: FileSyntax, e: FileEdit, ps: seq<string>)
    requires Rendered(w, e, ps)
    ensures HeadEndAt(w, Concat(ps), Offset(ps, 7)) == Some(Offset(ps, 8))
  {
    PartOccurs(ps, 7);
  }

  lemma CloseFacts(w: FileSyntax, e: FileEdit, ps: seq<string>)
    requires Readable(w) && Writable(w, e) && Rendered(w, e, ps)
    ensures FindFrom(Concat(ps), w.close, Offset(ps, 8)) == Some(Offset(ps, 9))
  {
    FindNextPart(ps, 8, '>', w.close, Offset(ps, 8), Offset(ps, 9));
  }

  lemma RenderFacts(w: FileSyntax, e: FileEdit, ps: seq<string>)
    requires Readable(w) && Writable(w, e) && Rendered(w, e, ps)
    ensures PartsEnd(w, Concat(ps), Offset(ps, 3), Offset(ps, 4), Offset(ps, 6), Offset(ps, 7), Offset(ps, 8), Offset(ps, 9))
  {
    PathStartFacts(w, e, ps);
    QuotedFacts(ps, 3);
    ModeStartFacts(w, e, ps);
    QuotedFacts(ps, 6);
    HeadEndFacts(w, e, ps);
    CloseFacts(w, e, ps);
  }

  /** The span of a rendered element, whatever follows it. */
  lemma RenderSpan(w: FileSyntax, e: FileEdit, ps: seq<string>)
    requires Readable(w) && Writable(w, e) && Rendered(w, e, ps)
    ensures SpanAt(w, Concat(ps), 0) == Some(FileSpan(Offset(ps, 3), Offset(ps, 4), Offset(ps, 6), Offset(ps, 7), Offset(ps, 9)))
  {
    RenderFacts(w, e, ps);
    SpanFrom(w, Concat(ps), Offset(ps, 3), Offset(ps, 4), Offset(ps, 6), Offset(ps, 7), Offset(ps, 8), Offset(ps, 9));
  }

  /** Read off the span of a rendered element, the pieces give back the
      edit, path and mode stripped and the content's surrounding newlines
      dropped, and the match ends where the element does. */
  lemma RenderHit(w: FileSyntax, e: FileEdit, ps: seq<string>)
    requires Readable(w) && Writable(w, e) && Rendered(w, e, ps)
    ensures Ordered(w, FileSpan(Offset(ps, 3), Offset(ps, 4), Offset(ps, 6), Offset(ps, 7), Offset(ps, 9)), 0, |Concat(ps)|)
    ensures HitOf(w, Concat(ps), FileSpan(Offset(ps, 3), Offset(ps, 4), Offset(ps, 6), Offset(ps, 7), Offset(ps, 9)))
      == FileHit(FileEdit(Strip(e.path), Strip(e.mode), StripNewlines(e.content)), Offset(ps, 10))
  {
    var t := FileSpan(Offset(ps, 3), Offset(ps, 4), Offset(ps, 6), Offset(ps, 7), Offset(ps, 9));
    RenderSlices(w, e, ps);
    OffsetNext(ps, 9);
    HitFrom(w, Concat(ps), t, e, Offset(ps, 10));
  }

  /** The rendered pieces lie in order and the path, mode and content are
      slices of the whole. */
  lemma RenderSlices(w: FileSyntax, e: FileEdit, ps: seq<string>)
    requires Readable(w) && Writable(w, e) && Rendered(w, e, ps)
    ensures SlicesAre(w, Concat(ps), FileSpan(Offset(ps, 3), Offset(ps, 4), Offset(ps, 6), Offset(ps, 7), Offset(ps, 9)), e)
  {
    RenderOrdered(w, e, ps);
    PartSlice(ps, 3);
    PartSlice(ps, 6);
    ContentSlice(w, e, ps);
  }

  /** The content is the slice between the end of the head and the closing
      tag. */
  lemma ContentSlice(w: FileSyntax, e: FileEdit, ps: seq<string>)
    requires Rendered(w, e, ps)
    ensures Offset(ps, 7) + |w.headEnd| == Offset(ps, 8) <= Offset(ps, 9) <= |Concat(ps)|
    ensures Concat(ps)[Offset(ps, 7) + |w.headEnd|..Offset(ps, 9)] == e.content
  {
    OffsetNext(ps, 7);
    PartSliceFrom(ps, 8, Offset(ps, 7) + |w.headEnd|);
  }

  lemma RenderOrdered(w: FileSyntax, e: FileEdit, ps: seq<string>)
    requires Readable(w) && Writable(w, e) && Rendered(w, e, ps)
    ensures Ordered(w, FileSpan(Offset(ps, 3), Offset(ps, 4), Offset(ps, 6), Offset(ps, 7), Offset(ps, 9)), 0, |Concat(ps)|)
  {
    OffsetNext(ps, 3);
    OffsetNext(ps, 4);
    OffsetNext(ps, 5);
    OffsetNext(ps, 6);
    OffsetNext(ps, 7);
    OffsetNext(ps, 8);
    PartSlice(ps, 9);
  }

  /** The span is ordered within `s` and its slices are the edit's parts. */
  predicate SlicesAre(w: FileSyntax, s: string, t: FileSpan, e: FileEdit) {
    && Ordered(w, t, 0, |s|)
    && s[t.a..t.pe] == e.path && s[t.b..t.me] == e.mode && s[t.me + |w.headEnd|..t.k] == e.content
  }

  /** A hit is read off the slices of its span. */
  lemma HitFrom(w: FileSyntax, s: string, t: FileSpan, e: FileEdit, end: nat)
    requires SlicesAre(w, s, t, e) && end == t.k + |w.close|
    ensures Ordered(w, t, 0, |s|)
    ensures HitOf(w, s, t) == FileHit(FileEdit(Strip(e.path), Strip(e.mode), StripNewlines(e.content)), end)
  {
  }

  /** A reply that begins with a file element with a plain path and mode
      yields that edit first, its content's surrounding newlines dropped,
      and the search resumes where the element ends. */
  lemma FileFirst(e: FileEdit, rest: string)
    requires e.path != [] && '"' !in e.path && e.path == Strip(e.path)
    requires e.mode != [] && '"' !in e.mode && e.mode == Strip(e.mode)
    requires !Contains(e.content, "</file>")
    ensures var s := Concat(Parts(Syntax, e, rest));
      var end := Offset(Parts(Syntax, e, rest), 10);
      end <= |s| && FilesFrom(s, 0) == [FileEdit(e.path, e.mode, StripNewlines(e.content))] + FilesFrom(s, end)
  {
    var ps := Parts(Syntax, e, rest);
    var s := Concat(ps);
    SyntaxReadable();
    assert Rendered(Syntax, e, ps);
    RenderSpan(Syntax, e, ps);
    RenderHit(Syntax, e, ps);
    assert FileAt(s, 0) == Some(FileHit(FileEdit(e.path, e.mode, StripNewlines(e.content)), Offset(ps, 10)));
  }

  /** A reply holding one such element reads back as exactly that edit. */
  lemma FileRoundTrip(e: FileEdit)
    requires e.path != [] && '"' !in e.path && e.path == Strip(e.path)
    requires e.mode != [] && '"' !in e.mode && e.mode == Strip(e.mode)
    requires !Contains(e.content, "</file>")
    ensures FilesFrom(FileElement(e), 0) == [FileEdit(e.path, e.mode, StripNewlines(e.content))]
  {
    var ps := Parts(Syntax, e, []);
    FileFirst(e, []);
    OffsetNext(ps, 10);
    ConcatLength(ps);
  }

  /** `parse_response`: action and target default to "unknown", every other
      tag to the empty string. */
  function Parse(s: string): (r: Parsed)
    ensures !Contains(s, OpenTag("action")) ==> r.action == "unknown"
    ensures !Contains(s, OpenTag("target")) ==> r.target == "unknown"
    ensures !Contains(s, OpenTag("learning")) ==> r.learning == ""
    ensures !Contains(s, OpenTag("curated_learnings")) ==> r.curatedLearnings == ""
    ensures |r.files| <= |s|
  {
    Parsed(
      TagValue(s, "action", "unknown"),
      TagValue(s, "target", "unknown"),
      FilesFrom(s, 0),
      TagValue(s, "lore_entry", ""),
      TagValue(s, "patch_notes", ""),
      TagValue(s, "learning", ""),
      TagValue(s, "curated_learnings", ""),
      TagValue(s, "oracle_question", ""))
  }
}
