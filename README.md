# WordTokenizer, modelled in Dafny

This project models the `WordTokenizer` class of `framework/word_tokenizer.py`,
a word-level tokenizer. It holds:

- a vocabulary, which is a list of tokens;
- a reverse map from each token to its index;
- the names of four optional special tokens (BOS, EOS, UNK and PAD).

The class offers these operations:

- `build_vocab` builds the vocabulary from a corpus, writes it to a file as
  one `"{index}\t{token}\n"` line per token, and rebuilds the reverse map.
- `__init__` can read a vocabulary back from such a file.
- `tokenize` segments a text. It lower-cases the text when configured, calls
  `nltk.word_tokenize`, then merges `<`, X, `>` into `<X>` for X in BOS, EOS,
  UNK and PAD. Every token outside the vocabulary is replaced by the UNK token.
- `encode` maps tokens to indices, and `decode` maps indices to tokens.
- `tokenize_batch`, `encode_batch` and `decode_batch` apply the single-item
  operation to every item.

Modules:

- `Common`: the option and result types, the exceptions the class raises, and
  small sequence helpers.
- `Segmenter`: lower-casing and the multi-word-expression (MWE) merge.
- `Ranking`: the counting and ordering of `Counter.most_common`, the
  selection size `int(len(cnt) * threshold)`, and the three `list.remove`
  calls.
- `VocabFile`: the text of the vocabulary file, how it is written, and how it
  is parsed back, including which index columns `int()` accepts.
- `Tokenizer`: the class `WordTokenizer`. Its `vocab` and `revVocab` fields
  are updated in place by `ReadVocab`, `RevVocab` and `BuildVocab`, and a
  `FileSystem` object stands for the files. `Create` is `__init__`.

Each exception the source raises becomes an `Error` value in a `Result` or
`Outcome`:

- `Unready` is any failure of using the tokenizer before it has a
  vocabulary: the plain `Exception('You cannot tokenize without vocab')` that
  `tokenize` raises, and the `TypeError` that `encode`, `decode` and
  `_write_vocab` meet when `vocab` or `rev_vocab` is `None`.
- `UnknownToken` is the `KeyError` of `encode`.
- `IndexOutOfRange` is the `IndexError` of `decode`.
- `MissingLiteral` is the `ValueError` of `list.remove`.
- `FileNotFound`, `BadIndexColumn` and `MissingTokenColumn` are the failures
  of `open` and of parsing a line while a vocabulary file is read.

A list comprehension over a call that may raise is `Collect`: it yields
every value, or the error of the first item that raises.

`nltk.word_tokenize` is not modelled. It is a constructor parameter,
`wordTokenize: string -> seq<string>`, and every result holds for any such
function. The threshold is a fraction `thresholdNum / thresholdDen`.

## Model

| member | source | states |
|---|---|---|
| Segmenter.Lower | framework/word_tokenizer.py:59-60 | `str.lower()` on ASCII letters |
| Segmenter.LowerIdempotent | framework/word_tokenizer.py:101-102 | lower-casing twice is lower-casing once, and leaves no upper-case ASCII letter |
| Segmenter.MergeKeepsText | framework/word_tokenizer.py:28-31 | with the empty separator, the MWE merge never changes the text the tokens spell |
| Segmenter.MergeShortens | framework/word_tokenizer.py:28-31 | the merge never lengthens the token list; a merge that keeps the length changes nothing |
| Segmenter.MergeWithoutOpen | framework/word_tokenizer.py:28-31 | a list without a `<` token is left as it is |
| Segmenter.MergeJoinsExpression | framework/word_tokenizer.py:28-31 | each of `<`,BOS,`>` / `<`,EOS,`>` / `<`,UNK,`>` / `<`,PAD,`>` becomes one token `<X>`, followed by the merge of the rest |
| Ranking.Count | framework/word_tokenizer.py:64 | the Counter entry for a token is positive exactly when the token occurs, and is at most the corpus length |
| Ranking.Distinct | framework/word_tokenizer.py:64 | the Counter's keys: no duplicates, the same members as the corpus |
| Ranking.RankIsMostCommonOrder | framework/word_tokenizer.py:64-65 | the `most_common` order has each distinct token once, counts never increase, and ties keep first-occurrence order |
| Ranking.RankCharacterised | framework/word_tokenizer.py:64-65 | any duplicate-free arrangement of the corpus tokens that obeys that order is the `most_common` order |
| Ranking.RankedUnique | framework/word_tokenizer.py:64-65 | two arrangements of the same tokens that both obey the order are equal |
| Ranking.SelectionSizeBounds | framework/word_tokenizer.py:65 | `int(len(cnt) * threshold)` lies between 0 and `len(cnt)` when the threshold is in [0, 1] |
| Ranking.SelectionSizeMonotone | framework/word_tokenizer.py:65 | a larger non-negative threshold never gives a smaller `int(len(cnt) * threshold)` |
| Ranking.TopRanked | framework/word_tokenizer.py:65 | the top `n` tokens number `n` clamped to `[0, len(cnt)]`, are corpus tokens in `most_common` order, and each ranks ahead of every corpus token left out |
| Ranking.MostCommonSpec | framework/word_tokenizer.py:65-66 | `most_common(n)` has `n` entries clamped to `[0, len(cnt)]`; each is a distinct corpus token with its count; counts never increase; equal counts keep first-occurrence order; every token left out has a count no larger than any listed one, and on a tie occurs first later |
| Ranking.Remove | framework/word_tokenizer.py:67-69 | `list.remove` succeeds exactly when the item is present, and drops only its first occurrence |
| Ranking.RemoveStep | framework/word_tokenizer.py:67-69 | on a duplicate-free list, a removal of a present item shortens it by one and keeps every other token |
| Ranking.DropStraySpec | framework/word_tokenizer.py:67-69 | the three removals succeed exactly when `unk`, `<` and `>` are all selected; the error names the first missing one; on success the words are the selection without those three, in order, three fewer |
| Ranking.SelectWordsSpec | framework/word_tokenizer.py:64-69 | the same facts stated for the top `n` words of a corpus |
| Ranking.SelectionMonotone | framework/word_tokenizer.py:65-69 | a larger selection size only appends to the top words; a selection that succeeds still succeeds with the larger size, and its words are a prefix of the larger one's |
| Ranking.ThresholdMonotone | framework/word_tokenizer.py:65-69 | a larger threshold gives a selection size at least as large, so the top words and, on success, the selected words only grow at the end, and success carries over |
| VocabFile.IndexColumnRoundTrip | framework/word_tokenizer.py:36 | the written index reads back as the position |
| VocabFile.WrittenIndexParses | framework/word_tokenizer.py:47 | a written index column always passes `int()` |
| VocabFile.ReadLinesStops | framework/word_tokenizer.py:45-49 | reading stops at the first bad line; later lines are not read |
| VocabFile.FormatLineReads | framework/word_tokenizer.py:46-48 | a written line parses back to its token |
| VocabFile.FormatVocabLines | framework/word_tokenizer.py:35-36 | the file holds one line per token, in order, each carrying its position |
| VocabFile.VocabRoundTrip | framework/word_tokenizer.py:33-49 | reading back a written vocabulary gives the same list when no token holds a tab, `'\n'` or `'\r'` |
| Tokenizer.RevMapInverse | framework/word_tokenizer.py:95 | the reverse map's keys are the vocabulary's tokens, and each maps to the last position holding it |
| Tokenizer.RevMapBijective | framework/word_tokenizer.py:95 | on a duplicate-free vocabulary the reverse map inverts the list exactly |
| Tokenizer.WordTokenizer.constructor | framework/word_tokenizer.py:18-27 | stores the settings; vocabulary and reverse map start as `None` |
| Tokenizer.Create | framework/word_tokenizer.py:10-31 | succeeds exactly when no file is named or the named file exists and parses; on success the vocabulary is the parsed file and the reverse map matches it; otherwise the error of `open` or of the first bad line |
| Tokenizer.WordTokenizer.WriteVocab | framework/word_tokenizer.py:33-37 | the file is truncated and then holds exactly the formatted vocabulary; nothing else changes |
| Tokenizer.WordTokenizer.ReadVocab | framework/word_tokenizer.py:39-50 | no file named: nothing changes; missing file: `FileNotFound`; otherwise the vocabulary is the parsed file, or, on a bad line, the tokens read before it together with that line's error |
| Tokenizer.WordTokenizer.RevVocab | framework/word_tokenizer.py:91-95 | with a vocabulary, the reverse map is rebuilt from it; without one, nothing changes |
| Tokenizer.WordTokenizer.SegmentCorpus | framework/word_tokenizer.py:57-63 | the corpus loop yields every item's segmentation, in order |
| Tokenizer.WordTokenizer.SpecialsList | framework/word_tokenizer.py:70-78 | the enabled specials, in the order BOS, EOS, UNK, PAD |
| Tokenizer.WordTokenizer.AllSpecialsEnabled | framework/word_tokenizer.py:70-78 | with all four enabled they take positions 0 to 3 |
| Tokenizer.WordTokenizer.BuildVocab | framework/word_tokenizer.py:52-89 | fails exactly when a stray literal is missing from the selection, and then changes nothing; otherwise the vocabulary is the specials followed by the selected words, the file holds it, the reverse map matches it, and the result is the `most_common` pairs when asked |
| Tokenizer.WordTokenizer.BuiltVocabulary | framework/word_tokenizer.py:64-80 | the built vocabulary is specials then the top words without `unk`, `<` and `>`; its length is the specials plus the top words minus 3; it has no duplicates exactly when the specials are distinct and no selected word is a special |
| Tokenizer.WordTokenizer.Tokenized | framework/word_tokenizer.py:97-109 | fails exactly when there is no vocabulary; otherwise one entry per segmented token, that token if it is in the vocabulary and the UNK setting otherwise |
| Tokenizer.WordTokenizer.Tokenize | framework/word_tokenizer.py:97-109 | the in-place replacement loop yields exactly `Tokenized` |
| Tokenizer.WordTokenizer.TokenizeBatch | framework/word_tokenizer.py:111-113 | fails exactly on a non-empty batch without a vocabulary; otherwise each entry is `Tokenized` of its item |
| Tokenizer.WordTokenizer.EncodeSpec | framework/word_tokenizer.py:115-117 | succeeds exactly when the input is empty or every token is in the vocabulary; each index is the token's last position; otherwise `Unready`, or `UnknownToken` for the first unknown token |
| Tokenizer.WordTokenizer.EncodeBatch | framework/word_tokenizer.py:119-121 | succeeds exactly when every item encodes, and then holds each item's encoding; otherwise the error of the first failing item |
| Tokenizer.WordTokenizer.DecodeSpec | framework/word_tokenizer.py:123-125 | succeeds exactly when the input is empty or every index is in `[-len, len)`; each token is the vocabulary entry at that Python index; otherwise `Unready`, or `IndexOutOfRange` for the first bad index |
| Tokenizer.WordTokenizer.DecodeBatch | framework/word_tokenizer.py:127-129 | succeeds exactly when every item decodes, and then holds each item's decoding; otherwise the error of the first failing item |
| Tokenizer.WordTokenizer.DecodeEncode | framework/word_tokenizer.py:115-125 | decoding the encoding of vocabulary tokens gives the tokens back |
| Tokenizer.WordTokenizer.EncodeDecode | framework/word_tokenizer.py:115-125 | on a duplicate-free vocabulary, encoding the decoding of in-range non-negative indices gives the indices back |
| Tokenizer.WordTokenizer.TokenizedIsEncodable | framework/word_tokenizer.py:97-117 | when the UNK token is in the vocabulary, every `tokenize` output is a vocabulary token, so `encode` accepts it |

## Left out

- `nltk.word_tokenize` is a parameter of the model (`wordTokenize`). Its own rules (Penn Treebank splitting, punkt sentence splitting) are not part of this model.
- The MWE merge is the greedy left-to-right merge of the four configured triples. It is not a general MWE trie.
- Segmenter.Lower: lower-cases ASCII letters only. Unicode case mapping (including length-changing cases) is not modelled.
- Ranking.SelectionSizeBounds: the threshold is an exact fraction. Floating-point rounding of `len(cnt) * threshold` is not modelled, so a product just below an integer may truncate differently in the source.
- VocabFile.IndexColumnRoundTrip, VocabFile.WrittenIndexParses: `int()` is modelled for ASCII digits, signs, single underscores between digits and ASCII whitespace. Unicode digits and whitespace are not modelled.
- Lines split on `'\n'` only. The universal-newline translation of `'\r'` and `"\r\n"` by text-mode files is not modelled. Files the tokenizer writes hold no `'\r'` when their tokens hold none, which is what `VocabFile.Clean` demands for the round trip; a vocabulary file with `'\r'` from elsewhere is read as one line where Python reads two.
- The text encoding (UTF-8) of the vocabulary file is not modelled: files hold strings.
- I/O errors other than a missing file (permissions, a full disk) are not modelled, and neither is the closing of files.
- The `print` messages and the `tqdm` progress bar are not modelled.
- Tokenizer.WordTokenizer.WriteVocab: when the vocabulary is `None`, the failure is modelled as `Unready` after truncation. The source raises `TypeError` from `enumerate(None)`; `build_vocab` never reaches that case.
- Tokenizer.Create: `__init__` raising leaves no object, so the partially read vocabulary that `_read_vocab` leaves after a bad line is visible only in `ReadVocab`'s contract.
- Default arguments are not modelled: callers pass every argument explicitly. The source's defaults are `vocab_file=None`, `bos_token='<BOS>'`, `eos_token='<EOS>'`, `unk_token='<UNK>'`, `pad_token='<PAD>'` and `lower_case=True` for `__init__`, and `vocab_path='vocab.txt'`, `threshold=0.7` (`7 / 10` in the model) and `return_freq=False` for `build_vocab`.
- Python's dynamic typing (non-integer indices, non-string tokens, a `None` token under `unk_token=None` passed to `encode`) is not modelled. Tokenized outputs are `Option` values, and `Somes` unwraps them before `encode`.
