/** Verb-to-noun derivation: the fixed exception table of `nounifyExcept` and the
    candidate choice of `nounify`. The lexical resources (the lemmatiser and WordNet's
    derivationally related forms) are supplied from outside as two functions. */
module Lexicon {

  /** The part of speech the lemmatiser is asked for: `'n'` or `'v'`. */
  datatype PosClass = Noun | Verb

  /** `lemmatize(word, pos)` is `WordNetLemmatizer().lemmatize`. `derived(verb)` is the list
      `nounify` collects from WordNet: the names of the noun lemmas derivationally related
      to the lemmas of the verb senses of `verb`, one entry per occurrence, in WordNet's
      order (empty when WordNet knows no such sense or form). */
  datatype Lexicon = Lexicon(lemmatize: (string, PosClass) -> string, derived: string -> seq<string>)

  /** The hard-coded table of `nounifyExcept`. */
  const Exceptions: map<string, string> := map[
    "be" := "identity",
    "have" := "possession",
    "do" := "process",
    "bear" := "birth",
    "live" := "residence",
    "direct" := "director"
  ]

  /** How often `w` occurs in `ws`. */
  function Count(ws: seq<string>, w: string): nat {
    multiset(ws)[w]
  }

  /** The position of the first element of `ws` whose count is the largest, given that
      `best` is that position among the first `i` elements. */
  function FirstMostFrequent(ws: seq<string>, i: nat, best: nat): (r: nat)
    requires best < i <= |ws|
    requires forall j :: 0 <= j < i ==> Count(ws, ws[j]) <= Count(ws, ws[best])
    requires forall j :: 0 <= j < best ==> Count(ws, ws[j]) < Count(ws, ws[best])
    ensures r < |ws|
    ensures forall j :: 0 <= j < |ws| ==> Count(ws, ws[j]) <= Count(ws, ws[r])
    ensures forall j :: 0 <= j < r ==> Count(ws, ws[j]) < Count(ws, ws[r])
    decreases |ws| - i
  {
    if i == |ws| then best
    else if Count(ws, ws[i]) > Count(ws, ws[best]) then FirstMostFrequent(ws, i + 1, i)
    else FirstMostFrequent(ws, i + 1, best)
  }

  /** The candidate of highest weight (its share of all candidates): one occurring most often,
      and of those the one listed first. */
  function MostFrequent(ws: seq<string>): (r: string)
    requires ws != []
    ensures r in ws
    ensures forall w :: w in ws ==> Count(ws, w) <= Count(ws, r)
    ensures forall j :: 0 <= j < |ws| && Count(ws, ws[j]) == Count(ws, r) ==> r in ws[..j + 1]
  {
    var k := FirstMostFrequent(ws, 1, 0);
    assert forall j :: 0 <= j < |ws| && Count(ws, ws[j]) == Count(ws, ws[k]) ==> ws[k] in ws[..j + 1] by {
      forall j | 0 <= j < |ws| && Count(ws, ws[j]) == Count(ws, ws[k]) ensures ws[k] in ws[..j + 1] {
        assert k <= j;
        assert ws[..j + 1][k] == ws[k];
      }
    }
    ws[k]
  }

  /** `nounify(verb)`: the most frequent derived noun, or the verb itself when there is
      none. */
  function Nounify(verb: string, lex: Lexicon): (r: string)
    ensures lex.derived(verb) == [] ==> r == verb
    ensures lex.derived(verb) != [] ==>
      && r in lex.derived(verb)
      && forall w :: w in lex.derived(verb) ==> Count(lex.derived(verb), w) <= Count(lex.derived(verb), r)
  {
    var words := lex.derived(verb);
    if words == [] then verb else MostFrequent(words)
  }

  /** `nounifyExcept(verb)`: the table's noun for the six listed verbs, without consulting
      the derivation; `nounify` for every other verb. */
  function NounifyExcept(verb: string, lex: Lexicon): (r: string)
    ensures verb in Exceptions ==> r == Exceptions[verb]
    ensures verb !in Exceptions ==> r == Nounify(verb, lex)
  {
    if verb in Exceptions then Exceptions[verb] else Nounify(verb, lex)
  }

  /** For a verb of the table the result does not depend on the lexical resources at all. */
  lemma ExceptionsIgnoreLexicon(verb: string, lex1: Lexicon, lex2: Lexicon)
    requires verb in Exceptions
    ensures NounifyExcept(verb, lex1) == NounifyExcept(verb, lex2)
  {
  }
}
