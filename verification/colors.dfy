/**
  The colour schemes handed to the selector, and `colorscheme`, which picks one
  by the `--color` name. The random pick is an injected index into the table.
 */
module ColorSchemes {

  // Each scheme is written in two halves, as `lib.rs` writes it with a line
  // continuation; `main.rs` holds the same three strings on one line each.

  const Cmyk :=
    "bg+:-1,border:#0000ff,pointer:#0bc7e3,prompt:#feaf3c,"
    + "info:#0000ff,fg:#0000ff,fg+:#0bc7e3,hl:#ff00ff,hl+:#ff00ff"
  const Outrun :=
    "bg+:-1,border:#541388,pointer:#ef2b63,prompt:#0bc7e3,"
    + "info:#541388,fg:#541388,fg+:#ef2b63,hl:#0bc7e3,hl+:#0bc7e3"
  const Submariner :=
    "bg+:-1,border:#1d485f,pointer:#0bc7e3,prompt:#db662d,"
    + "info:#1d485f,fg:#1d485f,fg+:#0bc7e3,hl:#db662d,hl+:#db662d"

  /** The table in its fixed order. */
  const Schemes: seq<string> := [Cmyk, Outrun, Submariner]

  predicate IsCmykName(color: string) { color == "cmyk" || color == "c" }
  predicate IsOutrunName(color: string) { color == "outrun" || color == "o" }
  predicate IsSubmarinerName(color: string) { color == "submariner" || color == "s" }
  predicate IsRandomName(color: string) { color == "random" || color == "r" }

  /** The scheme for a `--color` name; `pick` stands for the random choice of `random`/`r`. */
  function ColorScheme(color: string, pick: nat): (r: string)
    requires pick < |Schemes|
    ensures r in Schemes
    ensures IsRandomName(color) ==> r == Schemes[pick]
  {
    if IsCmykName(color) then Schemes[0]
    else if IsOutrunName(color) then Schemes[1]
    else if IsSubmarinerName(color) then Schemes[2]
    else if IsRandomName(color) then Schemes[pick]
    else Schemes[2]
  }

  /** The three schemes are different strings, so a scheme identifies its table entry. */
  lemma SchemesDistinct()
    ensures Cmyk != Outrun && Cmyk != Submariner && Outrun != Submariner
  {
    assert Cmyk[15] != Outrun[15];
    assert Cmyk[15] != Submariner[15];
    assert Outrun[15] != Submariner[15];
  }

  /**
    Which names give which scheme, in both directions: a fixed scheme comes
    exactly from its long name, its one-letter alias, or a random pick of its
    index; Submariner also comes from every name not in the table.
   */
  lemma ColorSchemeChoices(color: string, pick: nat)
    requires pick < |Schemes|
    ensures ColorScheme(color, pick) == Cmyk <==> IsCmykName(color) || (IsRandomName(color) && pick == 0)
    ensures ColorScheme(color, pick) == Outrun <==> IsOutrunName(color) || (IsRandomName(color) && pick == 1)
    ensures ColorScheme(color, pick) == Submariner <==>
      (IsSubmarinerName(color) || (IsRandomName(color) && pick == 2)
       || !(IsCmykName(color) || IsOutrunName(color) || IsSubmarinerName(color) || IsRandomName(color)))
  {
    SchemesDistinct();
  }

  /** A name outside the table gives the same scheme as `submariner`. */
  lemma UnknownIsSubmariner(color: string, pick: nat)
    requires pick < |Schemes|
    requires !(IsCmykName(color) || IsOutrunName(color) || IsSubmarinerName(color) || IsRandomName(color))
    ensures ColorScheme(color, pick) == ColorScheme("submariner", pick)
  {
  }

  /** `main` ignores `--color` and always draws from the same table at random. */
  function MainColorScheme(pick: nat): (r: string)
    requires pick < |Schemes|
    ensures r == ColorScheme("random", pick)
  {
    Schemes[pick]
  }
}
