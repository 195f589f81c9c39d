/** The words (tokens) held by a dependency-tree node and the order they are kept in. */
module Words {
  import opened Wrappers

  /** One word of the sentence: its text, its position in the sentence (`index`) and its
      part-of-speech tag, absent until the tag pass sets it. */
  datatype Word = Word(word: string, index: int, pos: Option<string>)

  predicate SortedByIndex(ws: seq<Word>) {
    forall i, j :: 0 <= i < j < |ws| ==> ws[i].index <= ws[j].index
  }

  /** A sorted list stays sorted with an element in front that is not above any of it. */
  lemma ConsSorted(x: Word, ws: seq<Word>)
    requires SortedByIndex(ws)
    requires forall j :: 0 <= j < |ws| ==> x.index <= ws[j].index
    ensures SortedByIndex([x] + ws)
  {
    forall i, j | 0 <= i < j < |[x] + ws| ensures ([x] + ws)[i].index <= ([x] + ws)[j].index {
      if i > 0 {
        assert ([x] + ws)[i] == ws[i - 1];
      }
      assert ([x] + ws)[j] == ws[j - 1];
    }
  }

  /** Puts `w` in front of the first element whose index is not smaller than its own. */
  function Insert(w: Word, ws: seq<Word>): (r: seq<Word>)
    requires SortedByIndex(ws)
    ensures SortedByIndex(r)
    ensures multiset(r) == multiset(ws) + multiset{w}
  {
    if ws == [] || w.index <= ws[0].index then
      ConsSorted(w, ws);
      [w] + ws
    else
      var rest := Insert(w, ws[1..]);
      forall j | 0 <= j < |rest| ensures ws[0].index <= rest[j].index {
        assert rest[j] in multiset(rest);
      }
      ConsSorted(ws[0], rest);
      assert ws == [ws[0]] + ws[1..];
      assert multiset([ws[0]] + rest) == multiset{ws[0]} + multiset(rest);
      [ws[0]] + rest
  }

  /** `ws` sorted by word position, as Python's in-place sort keyed on the index does. */
  function SortByIndex(ws: seq<Word>): (r: seq<Word>)
    ensures SortedByIndex(r)
    ensures multiset(r) == multiset(ws)
    ensures |r| == |ws|
  {
    if ws == [] then []
    else
      assert ws == [ws[0]] + ws[1..];
      Insert(ws[0], SortByIndex(ws[1..]))
  }

  /** A list already sorted by index is left as it is. */
  lemma {:induction false} SortSortedIsIdentity(ws: seq<Word>)
    requires SortedByIndex(ws)
    ensures SortByIndex(ws) == ws
  {
    if ws != [] {
      assert SortedByIndex(ws[1..]);
      SortSortedIsIdentity(ws[1..]);
      assert ws == [ws[0]] + ws[1..];
    }
  }

  /** Sorting twice gives what sorting once gives. */
  lemma SortIdempotent(ws: seq<Word>)
    ensures SortByIndex(SortByIndex(ws)) == SortByIndex(ws)
  {
    SortSortedIsIdentity(SortByIndex(ws));
  }

  /** The total length of the texts of the words. */
  function TextLength(ws: seq<Word>): nat {
    if ws == [] then 0 else |ws[0].word| + TextLength(ws[1..])
  }

  /** The texts of the words, in order, separated by single spaces: one separator between
      each two neighbours and none at either end. */
  function JoinWords(ws: seq<Word>): (r: string)
    ensures |r| == TextLength(ws) + (if ws == [] then 0 else |ws| - 1)
  {
    if ws == [] then ""
    else if |ws| == 1 then ws[0].word
    else ws[0].word + " " + JoinWords(ws[1..])
  }

  /** Joining two non-empty lists is joining each and putting one space between. */
  lemma {:induction false} JoinWordsAppend(a: seq<Word>, b: seq<Word>)
    requires a != [] && b != []
    ensures JoinWords(a + b) == JoinWords(a) + " " + JoinWords(b)
  {
    if |a| == 1 {
      assert (a + b)[1..] == b;
    } else {
      assert (a + b)[1..] == a[1..] + b;
      JoinWordsAppend(a[1..], b);
    }
  }
}
