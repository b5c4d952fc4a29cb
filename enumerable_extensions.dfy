/**
 * ToListedSentence: items rendered as one sentence, "One, Two and Three".
 * Items are given as their rendered text (the result of their ToString()).
 */
module EnumerableExtensions {
  import Text

  /** The text the loop appends before item i of n. */
  function SeparatorBefore(i: nat, n: nat, conjunction: string): string
  {
    if i == n - 1 && i > 0 then " " + conjunction + " "
    else if i > 0 then ", "
    else ""
  }

  /** Item i together with the separator written before it. */
  function Piece(items: seq<string>, conjunction: string, i: nat): string
    requires i < |items|
  {
    SeparatorBefore(i, |items|, conjunction) + items[i]
  }

  /**
   * The sentence the documentation describes: nothing for no items, the item itself
   * for one, and otherwise all but the last joined by ", " followed by the
   * conjunction and the last item.
   */
  function ListedSentence(items: seq<string>, conjunction: string): string
  {
    if |items| == 0 then ""
    else if |items| == 1 then items[0]
    else Text.Join(items[..|items| - 1], ", ") + " " + conjunction + " " + items[|items| - 1]
  }

  /** The StringBuilder loop; `conjunction` defaults to "and". */
  method ToListedSentence(items: seq<string>, conjunction: string := "and") returns (r: string)
    ensures r == ListedSentence(items, conjunction)
  {
    ghost var ps := Pieces(items, conjunction);
    r := "";
    for i := 0 to |items|
      invariant r == Text.Concat(ps[..i])
    {
      ghost var before := r;
      if i == |items| - 1 && i > 0 {
        r := r + " " + conjunction + " ";
      } else if i > 0 {
        r := r + ", ";
      }
      r := r + items[i];
      assert r == before + Piece(items, conjunction, i);
      assert ps[..i + 1] == ps[..i] + [ps[i]];
      Text.ConcatSnoc(ps[..i], ps[i]);
    }
    assert ps[..|items|] == ps;
    PiecesMakeSentence(items, conjunction);
  }

  function Pieces(items: seq<string>, conjunction: string): (ps: seq<string>)
    ensures |ps| == |items|
  {
    seq(|items|, k requires 0 <= k < |items| => Piece(items, conjunction, k))
  }

  /**
   * Item by item, the sentence is every item in input order, each preceded by its
   * separator: nothing before the first, " {conjunction} " before the last of two or
   * more, ", " before every other.
   */
  lemma {:induction false} PiecesMakeSentence(items: seq<string>, conjunction: string)
    ensures Text.Concat(Pieces(items, conjunction)) == ListedSentence(items, conjunction)
  {
    var n := |items|;
    var ps := Pieces(items, conjunction);
    if n == 1 {
      assert ps[0] == Piece(items, conjunction, 0) == items[0];
      assert ps[1..] == [];
    } else if n >= 2 {
      var last := ps[n - 1];
      assert last == Piece(items, conjunction, n - 1);
      assert ps == ps[..n - 1] + [last];
      Text.ConcatSnoc(ps[..n - 1], last);
      CommaPrefix(items, conjunction, n - 1);
      SentenceTail(Text.Join(items[..n - 1], ", "), conjunction, items[n - 1]);
    }
  }

  lemma SentenceTail(joined: string, conjunction: string, item: string)
    ensures joined + (" " + conjunction + " " + item) == joined + " " + conjunction + " " + item
  {
  }

  /** The first m pieces (m below the last index) make the items joined by ", ". */
  lemma {:induction false} CommaPrefix(items: seq<string>, conjunction: string, m: nat)
    requires 1 <= m < |items|
    ensures Text.Concat(Pieces(items, conjunction)[..m]) == Text.Join(items[..m], ", ")
  {
    var ps := Pieces(items, conjunction);
    if m == 1 {
      assert ps[0] == Piece(items, conjunction, 0) == items[0];
      assert ps[..1] == [items[0]];
      assert Text.Concat([items[0]]) == items[0] + Text.Concat([]);
      assert items[..1] == [items[0]];
    } else {
      CommaPrefix(items, conjunction, m - 1);
      assert ps[m - 1] == Piece(items, conjunction, m - 1) == ", " + items[m - 1];
      assert ps[..m] == ps[..m - 1] + [ps[m - 1]];
      Text.ConcatSnoc(ps[..m - 1], ps[m - 1]);
      assert items[..m] == items[..m - 1] + [items[m - 1]];
      Text.JoinSnoc(items[..m - 1], items[m - 1], ", ");
    }
  }

  /** No items give the empty string. */
  lemma EmptySentence(conjunction: string)
    ensures ListedSentence([], conjunction) == ""
  {
  }

  /** A single item stands alone, with no comma and no conjunction. */
  lemma SingleItemSentence(item: string, conjunction: string)
    ensures ListedSentence([item], conjunction) == item
  {
  }

  /** With two or more items the length is all items plus 2·(n−2) + |conjunction| + 2. */
  lemma SentenceLength(items: seq<string>, conjunction: string)
    requires |items| >= 2
    ensures |ListedSentence(items, conjunction)|
            == |Text.Concat(items)| + 2 * (|items| - 2) + |conjunction| + 2
  {
    var n := |items|;
    Text.JoinLength(items[..n - 1], ", ");
    assert items == items[..n - 1] + [items[n - 1]];
    Text.ConcatAppend(items[..n - 1], [items[n - 1]]);
    assert Text.Concat([items[n - 1]]) == items[n - 1] + Text.Concat([]);
  }

  /** The documented example: "One", "Two", "Three" with "or". */
  lemma DocumentedExample()
    ensures ListedSentence(["One", "Two", "Three"], "or") == "One, Two or Three"
  {
    assert ["One", "Two", "Three"][..2] == ["One", "Two"];
    assert Text.Join(["One", "Two"], ", ") == "One" + ", " + Text.Join(["Two"], ", ");
    assert Text.Join(["Two"], ", ") == "Two";
  }
}
