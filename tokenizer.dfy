/** The `WordTokenizer` class: the vocabulary state and the reverse map, the
    vocabulary builder, the vocabulary file store and the encoding facade. */
module Tokenizer {
  import opened Common
  import opened Segmenter
  import opened Ranking
  import opened VocabFile

  /** `{token: num for num, token in enumerate(v)}`: a later position of a
      token overwrites an earlier one. */
  function RevMap(v: seq<string>): map<string, nat>
  {
    if v == [] then map[] else RevMap(v[..|v| - 1])[v[|v| - 1] := |v| - 1]
  }

  /** `i` is the last position of `t` in `v`. */
  predicate IsLastIndex(v: seq<string>, i: nat, t: string)
  {
    i < |v| && v[i] == t && forall j :: i < j < |v| ==> v[j] != t
  }

  /** The reverse map's keys are the vocabulary's tokens, and it sends each
      token to the last position holding it. */
  lemma {:induction false} RevMapInverse(v: seq<string>)
    ensures forall t :: t in RevMap(v) <==> t in v
    ensures forall t :: t in RevMap(v) ==> IsLastIndex(v, RevMap(v)[t], t)
  {
    if v != [] {
      var init := v[..|v| - 1];
      RevMapInverse(init);
      assert v == init + [v[|v| - 1]];
      assert forall t :: t in v <==> t in init || t == v[|v| - 1];
    }
  }

  /** On a vocabulary without duplicates the reverse map inverts it exactly. */
  lemma RevMapBijective(v: seq<string>)
    requires NoDup(v)
    ensures forall i :: 0 <= i < |v| ==> v[i] in RevMap(v) && RevMap(v)[v[i]] == i
  {
    RevMapInverse(v);
  }

  /** `v[i]` for a Python index: negative indices count from the end. */
  function PyIndex(v: seq<string>, i: int): string
    requires -|v| <= i < |v|
  {
    if i >= 0 then v[i] else v[|v| + i]
  }

  /** The file system `_write_vocab` and `_read_vocab` use: file name to text. */
  class FileSystem {
    var files: map<string, string>

    constructor(files: map<string, string>)
      ensures this.files == files
    {
      this.files := files;
    }
  }

  class WordTokenizer {
    const lowerCase: bool
    const bosToken: Option<string>
    const eosToken: Option<string>
    const unkToken: Option<string>
    const padToken: Option<string>
    const vocabFile: Option<string>
    /** `nltk.word_tokenize`, supplied from outside. */
    const wordTokenize: string -> seq<string>

    var vocab: Option<seq<string>>
    var revVocab: Option<map<string, nat>>

    /** Unready (neither vocabulary nor reverse map), or Ready with the
        reverse map built from the vocabulary. */
    ghost predicate Valid()
      reads this
    {
      match vocab
      case None => revVocab.None?
      case Some(v) => revVocab == Some(RevMap(v))
    }

    /** The field assignments of `__init__`; reading the vocabulary file is `Create`. */
    constructor(vocabFile: Option<string>, bosToken: Option<string>, eosToken: Option<string>,
                unkToken: Option<string>, padToken: Option<string>, lowerCase: bool,
                wordTokenize: string -> seq<string>)
      ensures this.vocabFile == vocabFile && this.lowerCase == lowerCase
      ensures this.bosToken == bosToken && this.eosToken == eosToken
      ensures this.unkToken == unkToken && this.padToken == padToken
      ensures this.wordTokenize == wordTokenize
      ensures vocab.None? && revVocab.None? && Valid()
    {
      this.lowerCase := lowerCase;
      this.vocabFile := vocabFile;
      this.bosToken := bosToken;
      this.eosToken := eosToken;
      this.unkToken := unkToken;
      this.padToken := padToken;
      this.wordTokenize := wordTokenize;
      this.vocab := None;
      this.revVocab := None;
    }

    /** The enabled special tokens, in the order BOS, EOS, UNK, PAD. */
    function EnabledSpecials(): seq<string>
    {
      Somes([bosToken, eosToken, unkToken, padToken])
    }

    /** Lower-casing when configured, `nltk.word_tokenize`, then the MWE merge. */
    function Segmented(text: string): seq<string>
    {
      MergeMwes(wordTokenize(if lowerCase then Lower(text) else text))
    }

    /** The tokens `build_vocab` counts: each corpus item's segmentation, in order. */
    function CorpusTokens(rawText: seq<string>): seq<string>
    {
      if rawText == [] then []
      else CorpusTokens(rawText[..|rawText| - 1]) + Segmented(rawText[|rawText| - 1])
    }

    /** `_write_vocab`: opening truncates the file, then one line per token is appended. */
    method WriteVocab(fs: FileSystem, fileName: string) returns (outcome: Outcome)
      modifies fs
      ensures vocab.Some? ==> outcome == Pass && fs.files == old(fs.files)[fileName := FormatVocab(vocab.value)]
      ensures vocab.None? ==> outcome == Fail(Unready) && fs.files == old(fs.files)[fileName := ""]
    {
      fs.files := fs.files[fileName := ""];
      if vocab.None? {
        return Fail(Unready);
      }
      var v := vocab.value;
      for num := 0 to |v|
        invariant fs.files == old(fs.files)[fileName := FormatVocab(v[..num])]
      {
        assert v[..num + 1][..num] == v[..num];
        fs.files := fs.files[fileName := fs.files[fileName] + FormatLine(num, v[num])];
      }
      assert v[..|v|] == v;
      return Pass;
    }

    /** `_read_vocab`: nothing to do without a file name; otherwise the file's
        lines are parsed one by one into a fresh list. A failing line stops
        the reading and leaves the tokens read so far. */
    method ReadVocab(fs: FileSystem) returns (outcome: Outcome)
      modifies this`vocab
      ensures vocabFile.None? ==> outcome == Pass && vocab == old(vocab)
      ensures vocabFile.Some? && vocabFile.value !in fs.files ==>
                outcome == Fail(FileNotFound(vocabFile.value)) && vocab == old(vocab)
      ensures vocabFile.Some? && vocabFile.value in fs.files ==>
                var parsed := ParseVocab(fs.files[vocabFile.value]);
                && (outcome.Pass? <==> parsed.Success?)
                && (parsed.Success? ==> vocab == Some(parsed.value))
                && (parsed.Failure? ==>
                      outcome == Fail(parsed.error) &&
                      vocab == Some(ReadLines(Lines(fs.files[vocabFile.value])).tokens))
    {
      if vocabFile.None? {
        return Pass;
      }
      if vocabFile.value !in fs.files {
        return Fail(FileNotFound(vocabFile.value));
      }
      var lines := Lines(fs.files[vocabFile.value]);
      vocab := Some([]);
      var i := 0;
      while i < |lines|
        invariant 0 <= i <= |lines|
        invariant vocab.Some? && ReadLines(lines[..i]) == Read(vocab.value, None)
      {
        assert lines[..i + 1][..i] == lines[..i];
        var parsed := ParseLine(lines[i]);
        if parsed.Failure? {
          ReadLinesStops(lines, i + 1);
          return Fail(parsed.error);
        }
        vocab := Some(vocab.value + [parsed.value]);
        i := i + 1;
      }
      assert lines[..i] == lines;
      return Pass;
    }

    /** `_rev_vocab`: rebuild the reverse map from the vocabulary, if there is one. */
    method RevVocab()
      modifies this`revVocab
      ensures vocab.Some? ==> revVocab == Some(RevMap(vocab.value))
      ensures vocab.None? ==> revVocab == old(revVocab)
    {
      if vocab.None? {
        return;
      }
      var v := vocab.value;
      var m: map<string, nat> := map[];
      for num := 0 to |v|
        invariant m == RevMap(v[..num])
      {
        assert v[..num + 1][..num] == v[..num];
        m := m[v[num] := num];
      }
      assert v[..|v|] == v;
      revVocab := Some(m);
    }

    /** The corpus loop of `build_vocab`: lower-case when configured,
        segment, and append each item's tokens. */
    method SegmentCorpus(rawText: seq<string>) returns (tokens: seq<string>)
      ensures tokens == CorpusTokens(rawText)
    {
      tokens := [];
      for i := 0 to |rawText|
        invariant tokens == CorpusTokens(rawText[..i])
      {
        var sent := rawText[i];
        if lowerCase {
          sent := Lower(sent);
        }
        var tokenized := wordTokenize(sent);
        tokenized := MergeMwes(tokenized);
        assert rawText[..i + 1][..i] == rawText[..i];
        tokens := tokens + tokenized;
      }
      assert rawText[..|rawText|] == rawText;
    }

    /** The special tokens `build_vocab` appends first, each only when enabled. */
    method SpecialsList() returns (v: seq<string>)
      ensures v == EnabledSpecials()
    {
      v := [];
      if bosToken.Some? {
        v := v + [bosToken.value];
      }
      if eosToken.Some? {
        v := v + [eosToken.value];
      }
      if unkToken.Some? {
        v := v + [unkToken.value];
      }
      if padToken.Some? {
        v := v + [padToken.value];
      }
      SpecialsUnfold();
    }

    /** `build_vocab`: count the segmented corpus, keep the top
        `int(len(cnt) * threshold)` tokens, remove `'unk'`, `'<'` and `'>'`,
        put the enabled specials first, then save the vocabulary and rebuild
        the reverse map. The threshold is `thresholdNum / thresholdDen`. */
    method BuildVocab(fs: FileSystem, rawText: seq<string>, vocabPath: string,
                      thresholdNum: int, thresholdDen: nat, returnFreq: bool)
      returns (r: Result<Option<seq<(string, nat)>>>)
      requires thresholdDen > 0
      modifies this, fs
      ensures var tokens := CorpusTokens(rawText);
              var n := SelectionSize(|Distinct(tokens)|, thresholdNum, thresholdDen);
              var selected := SelectWords(tokens, n);
              && (r.Success? <==> selected.Success?)
              && (r.Failure? ==>
                    && r.error == selected.error
                    && vocab == old(vocab) && revVocab == old(revVocab)
                    && fs.files == old(fs.files))
              && (r.Success? ==>
                    && vocab == Some(EnabledSpecials() + selected.value)
                    && revVocab == Some(RevMap(vocab.value))
                    && fs.files == old(fs.files)[vocabPath := FormatVocab(vocab.value)]
                    && r.value == (if returnFreq then Some(MostCommon(tokens, n)) else None))
      ensures r.Success? ==> Valid()
    {
      var tokens := SegmentCorpus(rawText);
      var n := SelectionSize(|Distinct(tokens)|, thresholdNum, thresholdDen);
      var mostCommon := MostCommon(tokens, n);
      var words := seq(|mostCommon|, j requires 0 <= j < |mostCommon| => mostCommon[j].0);
      assert words == Top(tokens, n);
      var w1 := Remove(words, "unk");
      if w1.None? {
        return Failure(MissingLiteral("unk"));
      }
      var w2 := Remove(w1.value, "<");
      if w2.None? {
        return Failure(MissingLiteral("<"));
      }
      var w3 := Remove(w2.value, ">");
      if w3.None? {
        return Failure(MissingLiteral(">"));
      }
      var v := SpecialsList();
      v := v + w3.value;
      vocab := Some(v);
      var written := WriteVocab(fs, vocabPath);
      RevVocab();
      r := Success(if returnFreq then Some(mostCommon) else None);
    }

    lemma SpecialsUnfold()
      ensures EnabledSpecials() ==
                (if bosToken.Some? then [bosToken.value] else []) +
                (if eosToken.Some? then [eosToken.value] else []) +
                (if unkToken.Some? then [unkToken.value] else []) +
                (if padToken.Some? then [padToken.value] else [])
    {
      var xs := [bosToken, eosToken, unkToken, padToken];
      assert xs[1..] == [eosToken, unkToken, padToken];
      assert xs[1..][1..] == [unkToken, padToken];
      assert xs[1..][1..][1..] == [padToken];
      assert xs[1..][1..][1..][1..] == [];
      assert Somes([padToken]) == (if padToken.Some? then [padToken.value] else []);
      assert Somes([unkToken, padToken]) ==
        (if unkToken.Some? then [unkToken.value] else []) + Somes([padToken]);
      assert Somes([eosToken, unkToken, padToken]) ==
        (if eosToken.Some? then [eosToken.value] else []) + Somes([unkToken, padToken]);
    }

    /** `tokenize`: the segmentation with every token outside the vocabulary
        replaced by `unk_token`; raises while there is no vocabulary. */
    function Tokenized(rawText: string): (r: Result<seq<Option<string>>>)
      reads this
      requires Valid()
      ensures r.Failure? <==> vocab.None?
      ensures r.Failure? ==> r.error == Unready
      ensures r.Success? ==> |r.value| == |Segmented(rawText)|
      ensures r.Success? ==> vocab.Some? && forall k :: 0 <= k < |r.value| ==>
                r.value[k] == if Segmented(rawText)[k] in vocab.value then Some(Segmented(rawText)[k]) else unkToken
    {
      match vocab
      case None => Failure(Unready)
      case Some(v) =>
        var ts := Segmented(rawText);
        var m := revVocab.value;
        var unk := unkToken;
        RevMapInverse(v);
        Success(seq(|ts|, k requires 0 <= k < |ts| => if ts[k] in m then Some(ts[k]) else unk))
    }

    /** `tokenize`, overwriting the out-of-vocabulary entries of the token list in place. */
    method Tokenize(rawText: string) returns (r: Result<seq<Option<string>>>)
      requires Valid()
      ensures r == Tokenized(rawText)
    {
      if vocab.None? {
        return Failure(Unready);
      }
      var text := rawText;
      if lowerCase {
        text := Lower(text);
      }
      var segmented := wordTokenize(text);
      segmented := MergeMwes(segmented);
      var tokens := seq(|segmented|, k requires 0 <= k < |segmented| => Some(segmented[k]));
      for i := 0 to |tokens|
        invariant |tokens| == |segmented|
        invariant forall k :: 0 <= k < i ==>
                    tokens[k] == if segmented[k] in revVocab.value then Some(segmented[k]) else unkToken
        invariant forall k :: i <= k < |tokens| ==> tokens[k] == Some(segmented[k])
      {
        if tokens[i].value !in revVocab.value {
          tokens := tokens[i := unkToken];
        }
      }
      RevMapInverse(vocab.value);
      assert tokens == Tokenized(rawText).value;
      return Success(tokens);
    }

    /** `tokenize_batch`: `tokenize` on every item, in order. */
    function TokenizeBatch(batch: seq<string>): (r: Result<seq<seq<Option<string>>>>)
      reads this
      requires Valid()
      ensures r.Success? <==> batch == [] || vocab.Some?
      ensures r.Failure? ==> r.error == Unready
      ensures r.Success? ==> |r.value| == |batch|
      ensures r.Success? ==> forall j :: 0 <= j < |batch| ==> Tokenized(batch[j]) == Success(r.value[j])
    {
      Collect(seq(|batch|, j requires 0 <= j < |batch| && Valid() reads this => Tokenized(batch[j])))
    }

    /** `encode`: each token's position through the reverse map; the first
        token outside it raises. */
    function Encode(tokens: seq<string>): (r: Result<seq<nat>>)
      reads this
      ensures r.Success? ==> |r.value| == |tokens|
    {
      if tokens == [] then Success([])
      else match revVocab
        case None => Failure(Unready)
        case Some(m) =>
          var k := FirstWhere(tokens, t => t !in m);
          if k < |tokens| then Failure(UnknownToken(tokens[k]))
          else Success(seq(|tokens|, i requires 0 <= i < |tokens| => m[tokens[i]]))
    }

    /** `encode` succeeds exactly on the empty list and on lists of vocabulary
        tokens, sending each token to its last position; otherwise it raises
        for the first token outside the vocabulary, or because there is none. */
    lemma EncodeSpec(tokens: seq<string>)
      requires Valid()
      ensures Encode(tokens).Success? <==>
                tokens == [] || (vocab.Some? && forall t :: t in tokens ==> t in vocab.value)
      ensures Encode(tokens).Success? && tokens != [] ==>
                vocab.Some? && forall k :: 0 <= k < |tokens| ==> IsLastIndex(vocab.value, Encode(tokens).value[k], tokens[k])
      ensures Encode(tokens).Failure? && vocab.None? ==> Encode(tokens).error == Unready
      ensures Encode(tokens).Failure? && vocab.Some? ==>
                var e := Encode(tokens).error;
                && e.UnknownToken?
                && e.token in tokens && e.token !in vocab.value
                && forall j :: 0 <= j < IndexOf(tokens, e.token) ==> tokens[j] in vocab.value
    {
      if tokens != [] && vocab.Some? {
        RevMapInverse(vocab.value);
        var m := revVocab.value;
        var k := FirstWhere(tokens, t => t !in m);
        if k < |tokens| {
          assert tokens[k] in tokens;
        }
      }
    }

    /** `encode_batch`: `encode` on every item, in order; the first failure raises. */
    function EncodeBatch(batch: seq<seq<string>>): (r: Result<seq<seq<nat>>>)
      reads this
      ensures r.Success? <==> forall j :: 0 <= j < |batch| ==> Encode(batch[j]).Success?
      ensures r.Success? ==> |r.value| == |batch|
      ensures r.Success? ==> forall j :: 0 <= j < |batch| ==> Encode(batch[j]) == Success(r.value[j])
      ensures r.Failure? ==>
                exists j :: 0 <= j < |batch| && Encode(batch[j]) == Failure(r.error) &&
                  forall i :: 0 <= i < j ==> Encode(batch[i]).Success?
    {
      var items := seq(|batch|, j requires 0 <= j < |batch| reads this => Encode(batch[j]));
      assert forall j :: 0 <= j < |batch| ==> items[j] == Encode(batch[j]);
      Collect(items)
    }

    /** `decode`: each index looked up in the vocabulary with Python's
        indexing; the first index out of range raises. */
    function Decode(indices: seq<int>): (r: Result<seq<string>>)
      reads this
      ensures r.Success? ==> |r.value| == |indices|
    {
      if indices == [] then Success([])
      else match vocab
        case None => Failure(Unready)
        case Some(v) =>
          var k := FirstWhere(indices, i => !(-|v| <= i < |v|));
          if k < |indices| then Failure(IndexOutOfRange(indices[k]))
          else Success(seq(|indices|, j requires 0 <= j < |indices| => PyIndex(v, indices[j])))
    }

    /** `decode` succeeds exactly on the empty list and on lists of indices in
        `[-len, len)`, giving the entry at each Python index; otherwise it
        raises for the first index out of range, or because there is no
        vocabulary. */
    lemma DecodeSpec(indices: seq<int>)
      ensures Decode(indices).Success? <==>
                indices == [] || (vocab.Some? && forall i :: i in indices ==> -|vocab.value| <= i < |vocab.value|)
      ensures Decode(indices).Success? && indices != [] ==>
                vocab.Some? && forall k :: 0 <= k < |indices| ==>
                  -|vocab.value| <= indices[k] < |vocab.value| &&
                  Decode(indices).value[k] == PyIndex(vocab.value, indices[k])
      ensures Decode(indices).Failure? && vocab.None? ==> Decode(indices).error == Unready
      ensures Decode(indices).Failure? && vocab.Some? ==>
                var e := Decode(indices).error;
                && e.IndexOutOfRange?
                && e.index in indices && !(-|vocab.value| <= e.index < |vocab.value|)
                && forall j :: 0 <= j < IndexOf(indices, e.index) ==> -|vocab.value| <= indices[j] < |vocab.value|
    {
      if indices != [] && vocab.Some? {
        var v := vocab.value;
        var k := FirstWhere(indices, i => !(-|v| <= i < |v|));
        if k < |indices| {
          assert indices[k] in indices;
        }
      }
    }

    /** `decode_batch`: `decode` on every item, in order; the first failure raises. */
    function DecodeBatch(batch: seq<seq<int>>): (r: Result<seq<seq<string>>>)
      reads this
      ensures r.Success? <==> forall j :: 0 <= j < |batch| ==> Decode(batch[j]).Success?
      ensures r.Success? ==> |r.value| == |batch|
      ensures r.Success? ==> forall j :: 0 <= j < |batch| ==> Decode(batch[j]) == Success(r.value[j])
      ensures r.Failure? ==>
                exists j :: 0 <= j < |batch| && Decode(batch[j]) == Failure(r.error) &&
                  forall i :: 0 <= i < j ==> Decode(batch[i]).Success?
    {
      var items := seq(|batch|, j requires 0 <= j < |batch| reads this => Decode(batch[j]));
      assert forall j :: 0 <= j < |batch| ==> items[j] == Decode(batch[j]);
      Collect(items)
    }

    /** Decoding what was encoded gives the tokens back, duplicates in the
        vocabulary or not. */
    lemma DecodeEncode(tokens: seq<string>)
      requires Valid() && vocab.Some?
      requires forall t :: t in tokens ==> t in vocab.value
      ensures Encode(tokens).Success?
      ensures Decode(Encode(tokens).value) == Success(tokens)
    {
      EncodeSpec(tokens);
      var e := Encode(tokens).value;
      DecodeSpec(e);
      if tokens != [] {
        forall i | i in e ensures -|vocab.value| <= i < |vocab.value| {
          var k :| 0 <= k < |e| && e[k] == i;
          assert IsLastIndex(vocab.value, e[k], tokens[k]);
        }
        var d := Decode(e);
        assert d.Success?;
        assert d.value == tokens;
      }
    }

    /** On a vocabulary without duplicates, encoding what was decoded gives
        the indices back: every position decodes to a token that encodes to it. */
    lemma EncodeDecode(indices: seq<int>)
      requires Valid() && vocab.Some? && NoDup(vocab.value)
      requires forall i :: i in indices ==> 0 <= i < |vocab.value|
      ensures Decode(indices).Success?
      ensures Encode(Decode(indices).value) == Success(indices)
    {
      var v := vocab.value;
      DecodeSpec(indices);
      if indices != [] {
        var d := Decode(indices).value;
        EncodeSpec(d);
        forall t | t in d ensures t in v {
          var k :| 0 <= k < |d| && d[k] == t;
          assert indices[k] in indices;
        }
        var e := Encode(d);
        assert e.Success?;
        forall k | 0 <= k < |indices| ensures e.value[k] == indices[k] {
          assert indices[k] in indices;
          assert IsLastIndex(v, e.value[k], d[k]);
        }
        assert e.value == indices;
      }
    }

    /** With `unk_token` in the vocabulary, `tokenize` only yields vocabulary
        tokens, so `encode` accepts its output. */
    lemma TokenizedIsEncodable(rawText: string)
      requires Valid() && vocab.Some? && unkToken.Some? && unkToken.value in vocab.value
      ensures Tokenized(rawText).Success?
      ensures forall k :: 0 <= k < |Tokenized(rawText).value| ==>
                Tokenized(rawText).value[k].Some? && Tokenized(rawText).value[k].value in vocab.value
      ensures Encode(Somes(Tokenized(rawText).value)).Success?
    {
      var ts := Tokenized(rawText).value;
      SomesMembers(ts);
      EncodeSpec(Somes(ts));
      forall t | t in Somes(ts) ensures t in vocab.value {
        var k :| 0 <= k < |ts| && ts[k] == Some(t);
      }
    }

    /** With all four specials enabled they take positions 0 to 3. */
    lemma AllSpecialsEnabled()
      requires bosToken.Some? && eosToken.Some? && unkToken.Some? && padToken.Some?
      ensures EnabledSpecials() == [bosToken.value, eosToken.value, unkToken.value, padToken.value]
    {
      SpecialsUnfold();
    }

    /** The vocabulary `build_vocab` makes from `tokens` and selection size
        `n`: the enabled specials, then the top `n` words without the stray
        literals in ranking order; it has no duplicates exactly when the
        specials differ from each other and from every selected word. */
    lemma BuiltVocabulary(tokens: seq<string>, n: int)
      requires SelectWords(tokens, n).Success?
      ensures var v := EnabledSpecials() + SelectWords(tokens, n).value;
              && v[..|EnabledSpecials()|] == EnabledSpecials()
              && v[|EnabledSpecials()|..] == Without(Top(tokens, n), StrayLiterals)
              && |v| == |EnabledSpecials()| + |Top(tokens, n)| - 3
              && (NoDup(v) <==>
                    NoDup(EnabledSpecials()) &&
                    forall w :: w in SelectWords(tokens, n).value ==> w !in EnabledSpecials())
    {
      var specials := EnabledSpecials();
      var words := SelectWords(tokens, n).value;
      SelectWordsSpec(tokens, n);
      TopFacts(tokens, n);
      WithoutMembers(Top(tokens, n), StrayLiterals);
      NoDupAppend(specials, words);
      var v := specials + words;
      assert v[..|specials|] == specials;
      assert v[|specials|..] == words;
    }
  }

  /** `__init__`: set the fields, read the vocabulary file if one is named,
      and build the reverse map. A missing or malformed file raises. */
  method Create(fs: FileSystem, vocabFile: Option<string>, bosToken: Option<string>,
                eosToken: Option<string>, unkToken: Option<string>, padToken: Option<string>,
                lowerCase: bool, wordTokenize: string -> seq<string>)
    returns (r: Result<WordTokenizer>)
    ensures r.Success? <==>
              vocabFile.None? ||
              (vocabFile.value in fs.files && ParseVocab(fs.files[vocabFile.value]).Success?)
    ensures r.Failure? && vocabFile.Some? ==>
              r.error == if vocabFile.value in fs.files then ParseVocab(fs.files[vocabFile.value]).error
                         else FileNotFound(vocabFile.value)
    ensures r.Success? ==>
              && fresh(r.value) && r.value.Valid()
              && r.value.vocabFile == vocabFile && r.value.lowerCase == lowerCase
              && r.value.bosToken == bosToken && r.value.eosToken == eosToken
              && r.value.unkToken == unkToken && r.value.padToken == padToken
              && r.value.wordTokenize == wordTokenize
              && r.value.vocab == if vocabFile.None? then None
                                  else Some(ParseVocab(fs.files[vocabFile.value]).value)
  {
    var t := new WordTokenizer(vocabFile, bosToken, eosToken, unkToken, padToken, lowerCase, wordTokenize);
    var outcome := t.ReadVocab(fs);
    if outcome.Fail? {
      return Failure(outcome.error);
    }
    t.RevVocab();
    return Success(t);
  }
}
