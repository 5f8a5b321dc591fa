/**
  Candidate production: the body of the background walk in `main`. The
  directory walker itself is abstracted as the sequence of items it yields,
  already bounded by the maximum depth; each item is either an entry (its file
  name and, when it has one, the display string of its parent directory) or an
  error, which `.flatten()` drops.
 */
module Walk {
  import opened Wrappers
  import Text

  /** The only file name that marks a project. */
  const Manifest := "Cargo.toml"

  datatype Entry = Entry(fileName: string, parent: Option<string>)

  datatype WalkItem = Visited(entry: Entry) | Failed

  /** The item is a `Cargo.toml` entry that has a parent directory. */
  predicate Qualifies(item: WalkItem) {
    item.Visited? && item.entry.fileName == Manifest && item.entry.parent.Some?
  }

  /** The string sent for a directory: every occurrence of `home` becomes `~`. */
  function Abbreviate(dir: string, home: string): string {
    Text.ReplaceAll(dir, home, "~")
  }

  /** What one walked item contributes to the channel: its parent's abbreviation, or nothing. */
  function Emit(item: WalkItem, home: string): (out: seq<string>)
    ensures |out| <= 1
    ensures |out| == 1 <==> Qualifies(item)
    ensures |out| == 1 ==> out[0] == Abbreviate(item.entry.parent.value, home)
  {
    match item
    case Failed => []
    case Visited(e) =>
      if e.fileName == Manifest then
        match e.parent
        case Some(dir) => [Abbreviate(dir, home)]
        case None => []
      else []
  }

  /** Everything the walk sends, in walk order. */
  function Candidates(items: seq<WalkItem>, home: string): seq<string>
    decreases |items|
  {
    if |items| == 0 then []
    else Candidates(items[..|items| - 1], home) + Emit(items[|items| - 1], home)
  }

  /**
    The indices of the qualifying items, in increasing order: an independent
    description of which items contribute.
   */
  function QualifyingPositions(items: seq<WalkItem>): (pos: seq<nat>)
    ensures forall k :: 0 <= k < |pos| ==> pos[k] < |items| && Qualifies(items[pos[k]])
    ensures forall k, l :: 0 <= k < l < |pos| ==> pos[k] < pos[l]
    ensures forall i :: 0 <= i < |items| && Qualifies(items[i]) ==> i in pos
    decreases |items|
  {
    if |items| == 0 then []
    else
      var init := items[..|items| - 1];
      var before := QualifyingPositions(init);
      assert forall k :: 0 <= k < |before| ==> items[before[k]] == init[before[k]];
      before + (if Qualifies(items[|items| - 1]) then [|items| - 1] else [])
  }

  /**
    The k-th candidate is the abbreviated parent of the k-th qualifying item,
    and there is exactly one candidate per qualifying item: no filtering beyond
    the name test, no deduplication, walk order kept.
   */
  lemma {:induction false} CandidatesArePositions(items: seq<WalkItem>, home: string)
    ensures |Candidates(items, home)| == |QualifyingPositions(items)|
    ensures forall k :: 0 <= k < |Candidates(items, home)| ==>
      Candidates(items, home)[k] == Abbreviate(items[QualifyingPositions(items)[k]].entry.parent.value, home)
    decreases |items|
  {
    if |items| > 0 {
      var init := items[..|items| - 1];
      CandidatesArePositions(init, home);
      var last := items[|items| - 1];
      var c := Candidates(items, home);
      var c' := Candidates(init, home);
      var pos := QualifyingPositions(items);
      var before := QualifyingPositions(init);
      assert c == c' + Emit(last, home);
      assert pos == before + (if Qualifies(last) then [|items| - 1] else []);
      forall k | 0 <= k < |c|
        ensures c[k] == Abbreviate(items[pos[k]].entry.parent.value, home)
      {
        if k < |c'| {
          assert c[k] == c'[k];
          assert pos[k] == before[k];
          assert items[before[k]] == init[before[k]];
        } else {
          assert c[k] == Emit(last, home)[0];
          assert pos[k] == |items| - 1;
        }
      }
    }
  }

  /** Walking two stretches one after the other sends their candidates one after the other. */
  lemma {:induction false} CandidatesAppend(a: seq<WalkItem>, b: seq<WalkItem>, home: string)
    ensures Candidates(a + b, home) == Candidates(a, home) + Candidates(b, home)
    decreases |b|
  {
    if |b| == 0 {
      assert a + b == a;
    } else {
      var b' := b[..|b| - 1];
      assert (a + b)[..|a + b| - 1] == a + b';
      CandidatesAppend(a, b', home);
    }
  }

  /** An item that does not qualify contributes nothing wherever it stands in the walk. */
  lemma NonQualifyingIgnored(a: seq<WalkItem>, item: WalkItem, b: seq<WalkItem>, home: string)
    requires !Qualifies(item)
    ensures Candidates(a + [item] + b, home) == Candidates(a + b, home)
  {
    CandidatesAppend(a + [item], b, home);
    CandidatesAppend(a, [item], home);
    CandidatesAppend(a, b, home);
    assert [item][..0] == [];
  }

  function Min(x: nat, y: nat): nat {
    if x <= y then x else y
  }

  /**
    The walk loop with its sends. The receiver accepts the first
    `receiverDropsAfter` sends and is gone afterwards; a failed send is
    ignored, so every qualifying item is still attempted and the receiver gets
    a prefix of the attempts.
   */
  method RunWalker(items: seq<WalkItem>, home: string, receiverDropsAfter: nat)
    returns (attempted: seq<string>, delivered: seq<string>)
    ensures attempted == Candidates(items, home)
    ensures |attempted| == |QualifyingPositions(items)|
    ensures delivered == attempted[..Min(receiverDropsAfter, |attempted|)]
  {
    attempted := [];
    delivered := [];
    var i := 0;
    while i < |items|
      invariant 0 <= i <= |items|
      invariant attempted == Candidates(items[..i], home)
      invariant delivered == attempted[..Min(receiverDropsAfter, |attempted|)]
    {
      var item := items[i];
      assert items[..i + 1] == items[..i] + [item];
      assert Candidates(items[..i + 1], home) == attempted + Emit(item, home);
      if item.Visited? && item.entry.fileName == Manifest {
        match item.entry.parent {
          case Some(dir) =>
            var candidate := Abbreviate(dir, home);
            var sent := |attempted| < receiverDropsAfter;
            attempted := attempted + [candidate];
            if sent {
              delivered := delivered + [candidate];
            }
          case None =>
        }
      }
      i := i + 1;
    }
    assert items[..|items|] == items;
    CandidatesArePositions(items, home);
  }
}
