/** Per-file token counting, the retention rule, lemma grouping and the two
    output texts of task2/tokens_lemmas.py.

    The morphological analyser is an oracle giving, for a token, its most
    likely parse; `html_to_text` is not modelled, so a file is given by its
    visible text. */
module Lemmatize {
  import opened Options
  import opened Strings
  import opened Seqs
  import opened Order
  import opened Tokens

  /** The fields of the most likely parse that the pipeline reads. */
  datatype Analysis = Analysis(isKnown: bool, pos: Option<string>, score: real, normalForm: string)

  const DROP_POS: set<string> := {"PREP", "CONJ", "PRCL", "INTJ", "NUMR", "NPRO"}
  const MIN_SCORE: real := 0.20
  const HAPAX_SCORE: real := 0.35

  // ---- counting ----------------------------------------------------------

  function Normalized(ws: seq<string>): (r: seq<string>)
    ensures |r| == |ws| && forall k :: 0 <= k < |ws| ==> r[k] == NormalizeToken(ws[k])
  {
    seq(|ws|, k requires 0 <= k < |ws| => NormalizeToken(ws[k]))
  }

  /** The tokens counted in `text`: every `WORD_RE` match of the lower-cased
      text, normalised, kept when clean; one entry per occurrence. */
  function CountedTokens(text: string): seq<string> {
    Filter(IsCleanToken, Normalized(Words(Lower(text))))
  }

  lemma CountStep(ws: seq<string>, i: nat)
    requires i < |ws|
    ensures IsCleanToken(NormalizeToken(ws[i])) ==>
              Filter(IsCleanToken, Normalized(ws[..i + 1]))
              == Filter(IsCleanToken, Normalized(ws[..i])) + [NormalizeToken(ws[i])]
    ensures !IsCleanToken(NormalizeToken(ws[i])) ==>
              Filter(IsCleanToken, Normalized(ws[..i + 1])) == Filter(IsCleanToken, Normalized(ws[..i]))
  {
    var tok := NormalizeToken(ws[i]);
    assert Normalized(ws[..i + 1]) == Normalized(ws[..i]) + [tok];
    FilterSnoc(IsCleanToken, Normalized(ws[..i]), tok);
  }

  /** `freq` is the `Counter` of the sequence `counted`. */
  ghost predicate Tallies(freq: map<string, nat>, counted: seq<string>) {
    (forall t :: t in freq <==> t in counted)
    && (forall t :: t in freq ==> freq[t] == multiset(counted)[t])
  }

  lemma TalliesAdd(freq: map<string, nat>, counted: seq<string>, tok: string)
    requires Tallies(freq, counted)
    ensures Tallies(freq[tok := if tok in freq then freq[tok] + 1 else 1], counted + [tok])
  {
  }

  /** The frequency loop of `process_one_file`, over the matched words. */
  method CountWords(ws: seq<string>) returns (freq: map<string, nat>)
    ensures Tallies(freq, Filter(IsCleanToken, Normalized(ws)))
  {
    freq := map[];
    ghost var counted: seq<string> := [];
    var i := 0;
    while i < |ws|
      invariant 0 <= i <= |ws|
      invariant counted == Filter(IsCleanToken, Normalized(ws[..i]))
      invariant Tallies(freq, counted)
    {
      var tok := NormalizeToken(ws[i]);
      CountStep(ws, i);
      if IsCleanToken(tok) {
        TalliesAdd(freq, counted, tok);
        freq := freq[tok := if tok in freq then freq[tok] + 1 else 1];
        counted := counted + [tok];
      }
      i := i + 1;
    }
    assert ws[..i] == ws;
  }

  /** The token counts of one file: every counted token and only those, each
      with its number of occurrences. */
  method CountTokens(text: string) returns (freq: map<string, nat>)
    ensures forall t :: t in freq <==> t in CountedTokens(text)
    ensures forall t :: t in freq ==> freq[t] == multiset(CountedTokens(text))[t]
  {
    freq := CountWords(Words(Lower(text)));
  }

  /** Every counted token is clean, and its count is the number of matches
      that normalise to it. */
  lemma CountedTokensSpec(text: string, t: string)
    ensures t in CountedTokens(text) ==> IsCleanToken(t)
    ensures multiset(CountedTokens(text))[t]
            == if IsCleanToken(t) then multiset(Normalized(Words(Lower(text))))[t] else 0
  {
    var ns := Normalized(Words(Lower(text)));
    FilterMembers(IsCleanToken, ns);
    FilterMultiset(IsCleanToken, ns, t);
  }

  // ---- retention ---------------------------------------------------------

  /** The tokens kept by `process_one_file`. */
  method SelectTokens(morph: string -> Analysis, freq: map<string, nat>) returns (tokens: set<string>)
    ensures forall t :: t in tokens <==>
              t in freq && morph(t).isKnown
              && !(morph(t).pos.Some? && morph(t).pos.value in DROP_POS)
              && morph(t).score >= MIN_SCORE
              && (freq[t] == 1 ==> morph(t).score >= HAPAX_SCORE)
  {
    tokens := {};
    var rest := freq.Keys;
    while rest != {}
      invariant rest <= freq.Keys
      invariant forall t :: t in tokens <==>
                  t in freq && t !in rest && morph(t).isKnown
                  && !(morph(t).pos.Some? && morph(t).pos.value in DROP_POS)
                  && morph(t).score >= MIN_SCORE
                  && (freq[t] == 1 ==> morph(t).score >= HAPAX_SCORE)
      decreases |rest|
    {
      var tok :| tok in rest;
      rest := rest - {tok};
      var countInFile := freq[tok];
      var p := morph(tok);
      if !p.isKnown {
        continue;
      }
      if p.pos.Some? && p.pos.value in DROP_POS {
        continue;
      }
      if p.score < MIN_SCORE {
        continue;
      }
      if countInFile == 1 && p.score < HAPAX_SCORE {
        continue;
      }
      tokens := tokens + {tok};
    }
  }

  // ---- grouping ----------------------------------------------------------

  function NormalForm(morph: string -> Analysis, t: string): string {
    morph(t).normalForm
  }

  /** The lemmas of a set of tokens. */
  function LemmasOf(morph: string -> Analysis, toks: set<string>): set<string> {
    set t | t in toks :: NormalForm(morph, t)
  }

  /** The tokens of `toks` whose lemma is `lem`. */
  function GroupOf(morph: string -> Analysis, toks: set<string>, lem: string): set<string> {
    set t | t in toks && NormalForm(morph, t) == lem
  }

  /** The lemma map over a set of tokens: each normal form to the tokens that
      have it. */
  function GroupsOf(morph: string -> Analysis, toks: set<string>): map<string, set<string>> {
    map l | l in LemmasOf(morph, toks) :: GroupOf(morph, toks, l)
  }

  lemma GroupsOfAdd(morph: string -> Analysis, toks: set<string>, tok: string)
    ensures var g := GroupsOf(morph, toks);
            var l := NormalForm(morph, tok);
            GroupsOf(morph, toks + {tok}) == g[l := (if l in g then g[l] else {}) + {tok}]
  {
    var g := GroupsOf(morph, toks);
    var l := NormalForm(morph, tok);
    var g' := GroupsOf(morph, toks + {tok});
    var h := g[l := (if l in g then g[l] else {}) + {tok}];
    LemmasOfAdd(morph, toks, tok);
    assert g'.Keys == h.Keys;
    forall k | k in h ensures g'[k] == h[k] {
      GroupOfAdd(morph, toks, tok, k);
      if k == l && l !in g {
        GroupOfAbsent(morph, toks, k);
      }
    }
  }

  lemma LemmasOfAdd(morph: string -> Analysis, toks: set<string>, tok: string)
    ensures LemmasOf(morph, toks + {tok}) == LemmasOf(morph, toks) + {NormalForm(morph, tok)}
  {
  }

  lemma GroupOfAdd(morph: string -> Analysis, toks: set<string>, tok: string, k: string)
    ensures NormalForm(morph, tok) == k ==> GroupOf(morph, toks + {tok}, k) == GroupOf(morph, toks, k) + {tok}
    ensures NormalForm(morph, tok) != k ==> GroupOf(morph, toks + {tok}, k) == GroupOf(morph, toks, k)
  {
  }

  lemma GroupOfAbsent(morph: string -> Analysis, toks: set<string>, k: string)
    requires k !in LemmasOf(morph, toks)
    ensures GroupOf(morph, toks, k) == {}
  {
    forall t | t in toks ensures NormalForm(morph, t) != k {
      assert NormalForm(morph, t) in LemmasOf(morph, toks);
    }
  }

  /** The grouping loop of `process_one_file`. */
  method GroupByLemma(morph: string -> Analysis, tokensSorted: seq<string>) returns (groups: map<string, set<string>>)
    ensures groups == GroupsOf(morph, Elems(tokensSorted))
  {
    groups := map[];
    var i := 0;
    assert Elems(tokensSorted[..0]) == {};
    while i < |tokensSorted|
      invariant 0 <= i <= |tokensSorted|
      invariant groups == GroupsOf(morph, Elems(tokensSorted[..i]))
    {
      var tok := tokensSorted[i];
      var lem := morph(tok).normalForm;
      assert Elems(tokensSorted[..i + 1]) == Elems(tokensSorted[..i]) + {tok} by {
        assert tokensSorted[..i + 1] == tokensSorted[..i] + [tok];
      }
      GroupsOfAdd(morph, Elems(tokensSorted[..i]), tok);
      groups := groups[lem := (if lem in groups then groups[lem] else {}) + {tok}];
      i := i + 1;
    }
    assert tokensSorted[..i] == tokensSorted;
  }

  /** The lemma map partitions the tokens: groups are non-empty, each token
      lies in the group of its own normal form and in no other, and together
      the groups hold exactly the tokens. */
  lemma GroupsPartition(morph: string -> Analysis, toks: set<string>)
    ensures var g := GroupsOf(morph, toks);
            (forall l :: l in g ==> g[l] != {})
            && (forall t :: t in toks ==> NormalForm(morph, t) in g && t in g[NormalForm(morph, t)])
            && (forall l, t :: l in g && t in g[l] ==> t in toks && l == NormalForm(morph, t))
  {
    var g := GroupsOf(morph, toks);
    forall l | l in g ensures g[l] != {} {
      var t :| t in toks && NormalForm(morph, t) == l;
      assert t in g[l];
    }
  }

  // ---- process_one_file --------------------------------------------------

  /** `process_one_file` on the visible text of a file. */
  method ProcessOneFile(morph: string -> Analysis, text: string)
    returns (tokensSorted: seq<string>, groups: map<string, set<string>>)
    ensures StrictlySorted(tokensSorted)
    ensures forall t :: t in tokensSorted <==>
              t in CountedTokens(text) && morph(t).isKnown
              && !(morph(t).pos.Some? && morph(t).pos.value in DROP_POS)
              && morph(t).score >= MIN_SCORE
              && (multiset(CountedTokens(text))[t] == 1 ==> morph(t).score >= HAPAX_SCORE)
    ensures groups == GroupsOf(morph, Elems(tokensSorted))
  {
    var freq := CountTokens(text);
    var tokens := SelectTokens(morph, freq);
    tokensSorted := SortedOf(tokens);
    groups := GroupByLemma(morph, tokensSorted);
  }

  // ---- write_outputs -----------------------------------------------------

  /** One line of the lemmas file, without its newline. */
  function LemmaLine(lem: string, toks: set<string>): string {
    lem + " " + Join(SortedOf(toks), " ")
  }

  /** A lemma line reads back, split on spaces, as the lemma followed by its
      tokens in ascending order, when neither holds a space. */
  lemma LemmaLineParse(lem: string, toks: set<string>)
    requires toks != {} && ' ' !in lem && forall t :: t in toks ==> ' ' !in t
    ensures Split(LemmaLine(lem, toks), ' ') == [lem] + SortedOf(toks)
  {
    var xs := SortedOf(toks);
    var ys := [lem] + xs;
    assert ys[1..] == xs;
    assert Join(ys, " ") == LemmaLine(lem, toks);
    forall k | 0 <= k < |ys| ensures ' ' !in ys[k] {
      if k > 0 {
        assert ys[k] in Elems(xs);
      }
    }
    SplitJoin(ys, ' ');
  }

  function LemmaLines(groups: map<string, set<string>>): (r: seq<string>)
    ensures var keys := SortedOf(groups.Keys);
            |r| == |keys| && forall k :: 0 <= k < |keys| ==> r[k] == LemmaLine(keys[k], groups[keys[k]])
  {
    var keys := SortedOf(groups.Keys);
    assert forall k :: 0 <= k < |keys| ==> keys[k] in Elems(keys);
    seq(|keys|, k requires 0 <= k < |keys| => LemmaLine(keys[k], groups[keys[k]]))
  }

  /** `write_outputs`: the texts of the tokens file and of the lemmas file. */
  method WriteOutputs(tokensSorted: seq<string>, groups: map<string, set<string>>)
    returns (tokensText: string, lemmasText: string)
    ensures tokensText == NewlineTerminated(tokensSorted)
    ensures lemmasText == NewlineTerminated(LemmaLines(groups))
  {
    tokensText := WriteLines(tokensSorted);
    lemmasText := WriteLemmaLines(groups);
  }

  /** The lemmas file: one line per lemma, in ascending order. */
  method WriteLemmaLines(groups: map<string, set<string>>) returns (text: string)
    ensures text == NewlineTerminated(LemmaLines(groups))
  {
    var lemmas := SortedOf(groups.Keys);
    ghost var lines := LemmaLines(groups);
    text := "";
    var j := 0;
    while j < |lemmas|
      invariant 0 <= j <= |lemmas|
      invariant text == NewlineTerminated(lines[..j])
    {
      var lem := lemmas[j];
      assert lem in Elems(lemmas);
      var toks := SortedOf(groups[lem]);
      var line := lem + " " + Join(toks, " ");
      assert line == lines[j];
      NewlineTerminatedNext(lines, j);
      text := text + line + "\n";
      j := j + 1;
    }
    assert lines[..j] == lines;
  }
}
