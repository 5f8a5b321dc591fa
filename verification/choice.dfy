/**
  What `main` does once the selector has finished: exit on an abort, otherwise
  settle on one string (the typed query, overwritten by each selected item)
  and build the editor command around it.
 */
module Choice {
  import Text

  /** The part of the selector's result that `main` reads. */
  datatype SelectorResult = SelectorResult(isAbort: bool, query: string, selected: seq<string>)

  /** The process's last act: exit with a status, or hand a script to `bash -c`. */
  datatype Action = Exit(code: int) | RunBash(script: string)

  /** A format template: literal text and positions of the one argument. */
  datatype Piece = Lit(text: string) | Hole

  /**
    The command template of `main`,
    `vim --not-a-term -O {0}/src/main.rs {0}/src/lib.rs -c redraw! < /dev/tty`,
    cut at its `{0}` positions.
   */
  const EditTemplate: seq<Piece> := [Lit(CommandHead), Hole, Lit(CommandMiddle), Hole, Lit(CommandTail)]

  const CommandHead := "vim --not-a-term -O "
  const CommandMiddle := "/src/main.rs "
  const CommandTail := "/src/lib.rs -c redraw! < /dev/tty"

  /**
    The choice as `main` settles it: start from the query text and let every
    selected item, in order, overwrite it.
   */
  function ChosenText(query: string, selected: seq<string>): (r: string)
    ensures |selected| == 0 ==> r == query
    ensures |selected| > 0 ==> r == selected[|selected| - 1]
    decreases |selected|
  {
    if |selected| == 0 then query else ChosenText(selected[0], selected[1..])
  }

  /** The loop of `main` that does the overwriting. */
  method ResolveChoice(result: SelectorResult) returns (choice: string)
    ensures choice == ChosenText(result.query, result.selected)
    ensures |result.selected| > 0 ==> choice == result.selected[|result.selected| - 1]
  {
    choice := result.query;
    var i := 0;
    while i < |result.selected|
      invariant 0 <= i <= |result.selected|
      invariant i == 0 ==> choice == result.query
      invariant i > 0 ==> choice == result.selected[i - 1]
    {
      choice := result.selected[i];
      i := i + 1;
    }
  }

  /** Splices `arg` into every hole of `t`. */
  function Format(t: seq<Piece>, arg: string): string
    decreases |t|
  {
    if |t| == 0 then []
    else (match t[0] case Lit(x) => x case Hole => arg) + Format(t[1..], arg)
  }

  function LiteralLength(t: seq<Piece>): nat
    decreases |t|
  {
    if |t| == 0 then 0 else (match t[0] case Lit(x) => |x| case Hole => 0) + LiteralLength(t[1..])
  }

  function HoleCount(t: seq<Piece>): nat
    decreases |t|
  {
    if |t| == 0 then 0 else (if t[0] == Hole then 1 else 0) + HoleCount(t[1..])
  }

  /** Formatting keeps all literal text and adds one copy of the argument per hole. */
  lemma {:induction false} FormatLength(t: seq<Piece>, arg: string)
    ensures |Format(t, arg)| == LiteralLength(t) + HoleCount(t) * |arg|
    decreases |t|
  {
    if |t| > 0 {
      FormatLength(t[1..], arg);
      var h := HoleCount(t[1..]);
      if t[0] == Hole {
        assert HoleCount(t) == h + 1;
        assert (h + 1) * |arg| == h * |arg| + |arg|;
      } else {
        assert HoleCount(t) == h;
      }
    }
  }

  /** A template with a hole gives different commands for different arguments. */
  lemma {:induction false} FormatInjective(t: seq<Piece>, a: string, b: string)
    requires HoleCount(t) > 0
    requires Format(t, a) == Format(t, b)
    ensures a == b
    decreases |t|
  {
    FormatLength(t, a);
    FormatLength(t, b);
    if |a| < |b| {
      MulStrict(HoleCount(t), |a|, |b|);
    } else if |b| < |a| {
      MulStrict(HoleCount(t), |b|, |a|);
    }
    var fa := Format(t[1..], a);
    var fb := Format(t[1..], b);
    match t[0]
    case Lit(x) =>
      assert Format(t, a) == x + fa;
      assert Format(t, b) == x + fb;
      SamePrefixRest(x, fa, fb);
      FormatInjective(t[1..], a, b);
    case Hole =>
      assert Format(t, a) == a + fa;
      assert Format(t, b) == b + fb;
      SameLengthPrefix(a, b, fa, fb);
  }

  lemma {:induction false} MulStrict(h: nat, x: nat, y: nat)
    requires h > 0 && x < y
    ensures h * x < h * y
    decreases h
  {
    if h > 1 {
      MulStrict(h - 1, x, y);
      assert h * x == (h - 1) * x + x;
      assert h * y == (h - 1) * y + y;
    }
  }

  lemma SamePrefixRest(x: string, u: string, v: string)
    requires x + u == x + v
    ensures u == v
  {
    assert u == (x + u)[|x|..];
    assert v == (x + v)[|x|..];
  }

  lemma SameLengthPrefix(a: string, b: string, u: string, v: string)
    requires |a| == |b| && a + u == b + v
    ensures a == b
  {
    assert a == (a + u)[..|a|];
    assert b == (b + v)[..|b|];
  }

  /** The command for `choice`, as `main` formats it. */
  function EditCommand(choice: string): string {
    Format(EditTemplate, choice)
  }

  /** The placeholder that marks a hole in a template's text. */
  const Placeholder := "{0}"

  /** No literal piece contains a `{`, so no placeholder can begin inside one. */
  predicate PlainLiterals(t: seq<Piece>) {
    forall k :: 0 <= k < |t| && t[k].Lit? ==> '{' !in t[k].text
  }

  /**
    Formatting is substitution: the result is the template's text with every
    placeholder replaced by the argument and every other character left as it is.
   */
  lemma {:induction false} FormatIsSubstitution(t: seq<Piece>, arg: string)
    requires PlainLiterals(t)
    ensures Format(t, arg) == Text.ReplaceAll(Format(t, Placeholder), Placeholder, arg)
    decreases |t|
  {
    if |t| == 0 {
      assert Text.ReplaceAll([], Placeholder, arg) == [];
    } else {
      var rest := Format(t[1..], Placeholder);
      assert PlainLiterals(t[1..]) by {
        forall k | 0 <= k < |t[1..]| && t[1..][k].Lit?
          ensures '{' !in t[1..][k].text
        {
          assert t[1..][k] == t[k + 1];
        }
      }
      FormatIsSubstitution(t[1..], arg);
      match t[0]
      case Lit(x) =>
        assert '{' !in x;
        Text.ReplaceSkipsPrefix(x, rest, Placeholder, arg);
      case Hole =>
        Text.ReplaceLeading(Placeholder, rest, arg);
    }
  }

  /** The command is the template of `main` with the choice put in place of both `{0}`. */
  lemma EditCommandIsTemplateSubstitution(choice: string)
    ensures EditCommand(choice) == Text.ReplaceAll(EditCommand(Placeholder), Placeholder, choice)
  {
    EditTemplatePlain();
    FormatIsSubstitution(EditTemplate, choice);
  }

  lemma EditTemplatePlain()
    ensures PlainLiterals(EditTemplate)
  {
    HeadPlain();
    MiddlePlain();
    TailPlain();
    forall k | 0 <= k < |EditTemplate| && EditTemplate[k].Lit?
      ensures '{' !in EditTemplate[k].text
    {
      assert k == 0 || k == 2 || k == 4;
    }
  }

  lemma HeadPlain() ensures '{' !in CommandHead {}
  lemma MiddlePlain() ensures '{' !in CommandMiddle {}
  lemma TailPlain() ensures '{' !in CommandTail {}

  /** The template of `main` has exactly two `{0}` positions. */
  lemma {:induction false} EditTemplateHoles()
    ensures HoleCount(EditTemplate) == 2
  {
    var t := EditTemplate;
    assert t[4..][1..] == [];
    assert HoleCount(t[4..]) == 0;
    assert t[3..][1..] == t[4..] && t[3..][0] == Hole;
    assert HoleCount(t[3..]) == 1;
    assert t[2..][1..] == t[3..] && t[2..][0] != Hole;
    assert HoleCount(t[2..]) == 1;
    assert t[1..][1..] == t[2..] && t[1..][0] == Hole;
    assert HoleCount(t[1..]) == 2;
    assert t[0] != Hole;
  }

  /** Different choices give different commands. */
  lemma EditCommandInjective(a: string, b: string)
    requires EditCommand(a) == EditCommand(b)
    ensures a == b
  {
    EditTemplateHoles();
    FormatInjective(EditTemplate, a, b);
  }

  /**
    The end of `main`: an abort exits with status 0 and runs nothing; otherwise
    the chosen text goes into the command given to `bash -c`.
   */
  function Finish(result: SelectorResult): (act: Action)
    ensures result.isAbort <==> act == Exit(0)
    ensures act.RunBash? ==> act.script == EditCommand(ChosenText(result.query, result.selected))
  {
    if result.isAbort then Exit(0)
    else RunBash(EditCommand(ChosenText(result.query, result.selected)))
  }
}
