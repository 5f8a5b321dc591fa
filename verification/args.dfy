/**
  The option record `Args` of `lib.rs`: how `Args::new` normalises the values
  read from the command line (editor expansion, joining of `--paths`), and the
  `Display` rendering used for verbose output, with a reader for it.
 */
module CliArgs {
  import opened Wrappers
  import Text

  datatype Args = Args(
    query: string,
    source: string,
    target: string,
    paths: string,
    editor: string,
    color: string,
    depth: nat,
    fullscreen: bool,
    nopreview: bool,
    verbose: bool)

  /** The values `Args::new` has read from the command line, before normalising them. */
  datatype Matches = Matches(
    query: string,
    source: string,
    target: string,
    editor: string,
    color: string,
    depth: nat,
    fullscreen: bool,
    nopreview: bool,
    verbose: bool,
    paths: Option<seq<string>>)

  /** What `vim` is expanded to. */
  const VimCommand := "vim --not-a-term -c redraw! -O"

  /** Exactly the editor `vim` is rewritten; any other editor is kept as given. */
  function ExpandEditor(editor: string): (r: string)
    ensures r != "vim"
    ensures r == editor <==> editor != "vim"
    ensures r != editor ==> r == VimCommand
  {
    if editor == "vim" then VimCommand else editor
  }

  /** Expanding an expanded editor changes nothing. */
  lemma ExpandEditorIdempotent(editor: string)
    ensures ExpandEditor(ExpandEditor(editor)) == ExpandEditor(editor)
  {
  }

  /** The `--paths` values joined by single spaces, or the empty string when there are none. */
  function JoinPaths(values: Option<seq<string>>): (r: string)
    ensures values.None? ==> r == []
  {
    match values
    case None => ""
    case Some(arr) => Text.Join(arr, " ")
  }

  /** Splitting the joined paths at spaces gives the values back, in order, when none holds a space. */
  lemma JoinPathsRoundTrip(values: seq<string>)
    requires |values| > 0
    requires forall k :: 0 <= k < |values| ==> ' ' !in values[k]
    ensures Text.Split(JoinPaths(Some(values)), ' ') == values
  {
    Text.SplitJoin(values, ' ');
  }

  /** `Args::new` once the values are read: the editor is expanded and the paths joined. */
  function NewArgs(m: Matches): (a: Args)
    ensures a.editor == ExpandEditor(m.editor) && a.paths == JoinPaths(m.paths)
    ensures a.query == m.query && a.source == m.source && a.target == m.target && a.color == m.color
    ensures a.depth == m.depth && a.fullscreen == m.fullscreen && a.nopreview == m.nopreview && a.verbose == m.verbose
  {
    Args(m.query, m.source, m.target, JoinPaths(m.paths), ExpandEditor(m.editor), m.color,
         m.depth, m.fullscreen, m.nopreview, m.verbose)
  }

  /** One `key=value` item of the rendering; a quoted value is wrapped in `"` with no escaping. */
  datatype Field = Field(key: string, quoted: bool, text: string)

  function RenderField(f: Field): string {
    FieldHead(f.key) + FieldValue(f)
  }

  /** The text before a value: a space, the key and `=`. */
  function FieldHead(key: string): string {
    " " + key + "="
  }

  function FieldValue(f: Field): string {
    if f.quoted then "\"" + f.text + "\"" else f.text
  }

  function RenderFields(fs: seq<Field>): string
    decreases |fs|
  {
    if |fs| == 0 then [] else RenderField(fs[0]) + RenderFields(fs[1..])
  }

  /** The fields of `Display for Args`, in their fixed order. */
  function Fields(a: Args): seq<Field> {
    [ Field("query", true, a.query),
      Field("source", true, a.source),
      Field("target", true, a.target),
      Field("paths", true, a.paths),
      Field("editor", true, a.editor),
      Field("color", true, a.color),
      Field("depth", false, Text.NatToString(a.depth)),
      Field("fullscreen", false, Text.BoolText(a.fullscreen)),
      Field("nopreview", false, Text.BoolText(a.nopreview)),
      Field("verbose", false, Text.BoolText(a.verbose)) ]
  }

  /** `format!("{}", args)`. */
  function Display(a: Args): string {
    "ARGS:" + RenderFields(Fields(a))
  }

  /** A key and whether its value is quoted: what a reader of the rendering must know. */
  datatype Slot = Slot(key: string, quoted: bool)

  const Layout: seq<Slot> := [
    Slot("query", true), Slot("source", true), Slot("target", true), Slot("paths", true),
    Slot("editor", true), Slot("color", true), Slot("depth", false), Slot("fullscreen", false),
    Slot("nopreview", false), Slot("verbose", false)]

  function SlotsOf(fs: seq<Field>): (r: seq<Slot>)
    ensures |r| == |fs|
  {
    seq(|fs|, k requires 0 <= k < |fs| => Slot(fs[k].key, fs[k].quoted))
  }

  function TextsOf(fs: seq<Field>): (r: seq<string>)
    ensures |r| == |fs|
  {
    seq(|fs|, k requires 0 <= k < |fs| => fs[k].text)
  }

  /** No value holds the character that ends it: `"` for a quoted one, a space for a bare one. */
  predicate Delimited(fs: seq<Field>) {
    forall k :: 0 <= k < |fs| ==>
      (fs[k].quoted ==> '"' !in fs[k].text) && (!fs[k].quoted ==> ' ' !in fs[k].text)
  }

  /**
    Reads one value: a quoted one up to its closing `"` (which is dropped), a
    bare one up to the next space (which is kept) or the end.
   */
  function ReadValue(s: string, quoted: bool): Option<(string, string)> {
    if quoted then
      if |s| > 0 && s[0] == '"' then Text.TakeUntil(s[1..], '"') else None
    else if ' ' in s then
      var i := Text.FirstIndex(s, ' ');
      Some((s[..i], s[i..]))
    else Some((s, []))
  }

  /** Reads the values of the fields `slots` from a rendering of them. */
  function ParseFields(s: string, slots: seq<Slot>): (r: Option<seq<string>>)
    ensures r.Some? ==> |r.value| == |slots|
    decreases |slots|
  {
    if |slots| == 0 then
      if |s| == 0 then Some([]) else None
    else
      var head := FieldHead(slots[0].key);
      if !Text.StartsWith(s, head) then None
      else
        match ReadValue(s[|head|..], slots[0].quoted)
        case None => None
        case Some((text, rest)) =>
          match ParseFields(rest, slots[1..])
          case None => None
          case Some(texts) => Some([text] + texts)
  }

  /** Reads an `Args` back from its rendering. */
  function ParseDisplay(s: string): Option<Args> {
    if !Text.StartsWith(s, "ARGS:") then None
    else
      match ParseFields(s[5..], Layout)
      case None => None
      case Some(t) => ArgsOfTexts(t)
  }

  /** Builds `Args` from the ten values read in `Layout` order. */
  function ArgsOfTexts(t: seq<string>): Option<Args>
    requires |t| == |Layout|
  {
    match (Text.ParseNat(t[6]), Text.ParseBool(t[7]), Text.ParseBool(t[8]), Text.ParseBool(t[9]))
    case (Some(depth), Some(fullscreen), Some(nopreview), Some(verbose)) =>
      Some(Args(t[0], t[1], t[2], t[3], t[4], t[5], depth, fullscreen, nopreview, verbose))
    case _ => None
  }

  lemma RenderFieldsStartsWithSpace(fs: seq<Field>)
    requires |fs| > 0
    ensures |RenderFields(fs)| > 0 && RenderFields(fs)[0] == ' '
  {
  }

  /** Reading a rendering of delimited fields gives back their values. */
  lemma {:induction false} ParseFieldsRoundTrip(fs: seq<Field>)
    requires Delimited(fs)
    ensures ParseFields(RenderFields(fs), SlotsOf(fs)) == Some(TextsOf(fs))
    decreases |fs|
  {
    if |fs| > 0 {
      var f := fs[0];
      var rest := RenderFields(fs[1..]);
      RenderFieldsUnfold(fs);
      DelimitedTail(fs);
      ParseFieldsRoundTrip(fs[1..]);
      if |fs[1..]| > 0 {
        RenderFieldsStartsWithSpace(fs[1..]);
      }
      ReadValueOfRendered(f, rest);
      SlotsTextsTail(fs);
      ParseFieldsStep(RenderFields(fs), SlotsOf(fs), f.text, rest, TextsOf(fs[1..]));
    }
  }

  lemma RenderFieldsUnfold(fs: seq<Field>)
    requires |fs| > 0
    ensures Text.StartsWith(RenderFields(fs), FieldHead(fs[0].key))
    ensures RenderFields(fs)[|FieldHead(fs[0].key)|..] == FieldValue(fs[0]) + RenderFields(fs[1..])
  {
    SplitAfterPrefix(FieldHead(fs[0].key), FieldValue(fs[0]), RenderFields(fs[1..]));
  }

  lemma SplitAfterPrefix(h: string, v: string, r: string)
    ensures ((h + v) + r)[..|h|] == h
    ensures ((h + v) + r)[|h|..] == v + r
  {
  }

  lemma DelimitedTail(fs: seq<Field>)
    requires |fs| > 0 && Delimited(fs)
    ensures Delimited(fs[1..])
  {
    forall k | 0 <= k < |fs[1..]|
      ensures (fs[1..][k].quoted ==> '"' !in fs[1..][k].text) && (!fs[1..][k].quoted ==> ' ' !in fs[1..][k].text)
    {
      assert fs[1..][k] == fs[k + 1];
    }
  }

  lemma SlotsTextsTail(fs: seq<Field>)
    requires |fs| > 0
    ensures SlotsOf(fs)[0] == Slot(fs[0].key, fs[0].quoted)
    ensures SlotsOf(fs)[1..] == SlotsOf(fs[1..])
    ensures TextsOf(fs) == [fs[0].text] + TextsOf(fs[1..])
  {
  }

  /** One step of the reader: a head, a value, then the remaining fields. */
  lemma ParseFieldsStep(s: string, slots: seq<Slot>, text: string, rest: string, texts: seq<string>)
    requires |slots| > 0
    requires Text.StartsWith(s, FieldHead(slots[0].key))
    requires ReadValue(s[|FieldHead(slots[0].key)|..], slots[0].quoted) == Some((text, rest))
    requires ParseFields(rest, slots[1..]) == Some(texts)
    ensures ParseFields(s, slots) == Some([text] + texts)
  {
  }

  /** Reading the value of a rendered field stops exactly where the field ends. */
  lemma ReadValueOfRendered(f: Field, rest: string)
    requires f.quoted ==> '"' !in f.text
    requires !f.quoted ==> ' ' !in f.text
    requires |rest| > 0 ==> rest[0] == ' '
    ensures ReadValue(FieldValue(f) + rest, f.quoted) == Some((f.text, rest))
  {
    if f.quoted {
      var s := "\"" + f.text + "\"" + rest;
      assert s[1..] == f.text + ['"'] + rest;
      Text.TakeUntilFirst(f.text, '"', rest);
    } else if |rest| > 0 {
      var s := f.text + rest;
      assert s == f.text + [' '] + rest[1..];
      Text.FirstIndexOfFirst(f.text, ' ', rest[1..]);
      assert s[..|f.text|] == f.text;
      assert s[|f.text|..] == rest;
    } else {
      assert f.text + rest == f.text;
    }
  }

  /** The fields have the fixed layout of keys and quoting whatever the values. */
  lemma FieldsLayout(a: Args)
    ensures SlotsOf(Fields(a)) == Layout
  {
  }

  /** The string fields hold no `"`. */
  predicate Unquoted(a: Args) {
    '"' !in a.query && '"' !in a.source && '"' !in a.target
    && '"' !in a.paths && '"' !in a.editor && '"' !in a.color
  }

  /** Round trip: the rendering of arguments whose strings hold no `"` reads back as the same arguments. */
  lemma DisplayRoundTrip(a: Args)
    requires Unquoted(a)
    ensures ParseDisplay(Display(a)) == Some(a)
  {
    var fs := Fields(a);
    FieldsDelimited(a);
    ParseFieldsRoundTrip(fs);
    FieldsLayout(a);
    SplitAfterPrefix("ARGS:", RenderFields(fs), []);
    assert Display(a) + [] == Display(a);
    var t := TextsOf(fs);
    assert ParseFields(Display(a)[5..], Layout) == Some(t);
    ArgsOfFieldTexts(a);
  }

  lemma ArgsOfFieldTexts(a: Args)
    ensures ArgsOfTexts(TextsOf(Fields(a))) == Some(a)
  {
    var t := TextsOf(Fields(a));
    assert t[6] == Text.NatToString(a.depth);
    assert t[7] == Text.BoolText(a.fullscreen);
    assert t[8] == Text.BoolText(a.nopreview);
    assert t[9] == Text.BoolText(a.verbose);
    Text.ParseNatRoundTrip(a.depth);
    Text.ParseBoolRoundTrip(a.fullscreen);
    Text.ParseBoolRoundTrip(a.nopreview);
    Text.ParseBoolRoundTrip(a.verbose);
  }

  lemma FieldsDelimited(a: Args)
    requires Unquoted(a)
    ensures Delimited(Fields(a))
  {
    var fs := Fields(a);
    forall k | 0 <= k < |fs|
      ensures (fs[k].quoted ==> '"' !in fs[k].text) && (!fs[k].quoted ==> ' ' !in fs[k].text)
    {
      if k == 6 {
        var d := Text.NatToString(a.depth);
        assert Text.AllDigits(d);
        assert forall j :: 0 <= j < |d| ==> d[j] != ' ';
      }
    }
  }

  /**
    Without escaping the rendering is ambiguous: a `"` in the query can make it
    read as though part of the query were the source.
   */
  lemma QuotesNotEscaped(a: Args, x: string, y: string, z: string)
    ensures var quoteSource := "\"" + FieldHead("source") + "\"";
      var a1 := a.(query := x + quoteSource + y, source := z);
      var a2 := a.(query := x, source := y + quoteSource + z);
      a1 != a2 && Display(a1) == Display(a2)
  {
    var q := "\"";
    var quoteSource := q + FieldHead("source") + q;
    var a1 := a.(query := x + quoteSource + y, source := z);
    var a2 := a.(query := x, source := y + quoteSource + z);
    assert |a1.query| != |a2.query|;
    var f1 := Fields(a1);
    var f2 := Fields(a2);
    assert f1[2..] == f2[2..];
    var tail := RenderFields(f1[2..]);
    assert RenderFields(f1) == RenderField(f1[0]) + (RenderField(f1[1]) + tail) by {
      assert f1[1..][1..] == f1[2..];
    }
    assert RenderFields(f2) == RenderField(f2[0]) + (RenderField(f2[1]) + tail) by {
      assert f2[1..][1..] == f2[2..];
    }
    assert RenderField(f1[0]) == FieldHead("query") + (q + (x + quoteSource + y) + q);
    assert RenderField(f1[1]) == FieldHead("source") + (q + z + q);
    assert RenderField(f2[0]) == FieldHead("query") + (q + x + q);
    assert RenderField(f2[1]) == FieldHead("source") + (q + (y + quoteSource + z) + q);
    QuoteShift(FieldHead("query"), FieldHead("source"), q, x, y, z);
    ConcatShared(RenderField(f1[0]), RenderField(f1[1]), RenderField(f2[0]), RenderField(f2[1]), tail);
    assert RenderFields(f1) == RenderFields(f2);
    assert Display(a1) == Display(a2);
  }

  lemma ConcatShared(a: string, b: string, c: string, d: string, t: string)
    requires a + b == c + d
    ensures a + (b + t) == c + (d + t)
  {
    assert a + (b + t) == (a + b) + t;
    assert c + (d + t) == (c + d) + t;
  }

  /** The string identity behind the ambiguity, over arbitrary pieces. */
  lemma QuoteShift(h0: string, h1: string, q: string, x: string, y: string, z: string)
    ensures var qs := q + h1 + q;
      (h0 + (q + (x + qs + y) + q)) + (h1 + (q + z + q))
      == (h0 + (q + x + q)) + (h1 + (q + (y + qs + z) + q))
  {
    var qs := q + h1 + q;
    var flat := h0 + q + x + q + h1 + q + y + q + h1 + q + z + q;
    assert (h0 + (q + (x + qs + y) + q)) + (h1 + (q + z + q)) == flat;
    assert (h0 + (q + x + q)) + (h1 + (q + (y + qs + z) + q)) == flat;
  }
}
