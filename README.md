# pyTweetCleaner in Dafny

A model of the `TweetCleaner` class of pyTweetCleaner: the cleaner that reads
tweets one JSON object per line, drops deletion notices, non-English tweets,
replies and tweets whose text cleans to nothing, and writes each survivor with
a fixed set of fields and its text cleaned.

Three modules, one per concern of the class:

- `Strings` (strings.dfy): the Python string operations the class uses.
  These are `str.index`, the `in` test, `str.replace`, `str.split(' ')` and
  `' '.join`, with their round trips (`Join(Split(s)) == s`, and `Split`
  of a `Join` gives the pieces back).
- `TweetCleaner` (cleaner.dfy): the configuration and the text side.
  - The configuration is a `Cleaner` value: the stopword set, the
    `remove_retweets` flag and the tokenizer.
  - It covers `compound_word_split`, `remove_non_ascii_chars`,
    `remove_hyperlinks` and the `get_cleaned_text` pipeline. The pipeline
    strips quotes and hyphens, filters to ASCII, handles the `RT @name:`
    marker and strips links. It then protects `#`/`@` behind sentinels,
    tokenizes, strips punctuation, drops stopwords and one-character
    tokens, joins, restores the symbols and puts the marker back.
- `TweetRecords` (records.dfy): `get_cleaned_tweet` and the retweet decision
  of `clean_tweets`.
  - `get_cleaned_tweet` runs the drop tests and projects the kept fields.
  - The retweet decision attaches the cleaned `retweeted_status` to a
    retweet, or drops the retweet when its original is dropped.

The two regular expressions are explicit scans:
- `NameRunEnd`/`IsRetweet` for `RT @[_A-Za-z0-9]+:`. The postcondition of
  `IsRetweet` states that the scan accepts exactly what the pattern matches,
  read directly as `MatchesRetweetPattern`.
- `ExtendMatch`/`CompoundScan` for the lazy compound-word pattern. This
  includes what Python's `re` does with newlines: `.` does not match `\n`,
  and `$` also matches before a final `\n`.

Behaviour of the code worth knowing, which the model keeps:
- `remove_hyperlinks` splits on single spaces and keeps empty pieces, so
  runs of spaces survive (`RemoveHyperlinksIdentity`).
- The retweet marker must start the text with the literal `RT @`.
- The cleaned text is not lower-cased; `lower()` is used only to compare a
  token with the stopwords (pyTweetCleaner.py:94).
- `get_cleaned_text` does not call `compound_word_split`.
- The kept fields have no `geo` and no reply fields, and do include
  `user.followers_count`.
- The emptiness test in `get_cleaned_tweet` runs after the retweet marker
  has been put back. So a kept retweet is never dropped for an empty body
  (`RetweetsKept`).

## Model

| member | source | states |
|---|---|---|
| `TweetCleaner.NewCleaner` | pyTweetCleaner.py:39-49 | the stopword set is the English list when stopword removal is on and empty when it is off; the retweet flag and the tokenizer are stored as given |
| `TweetCleaner.NoStopWordsKeepsLongTokens` | pyTweetCleaner.py:94 | with the empty stopword set, exactly the tokens longer than one character survive, in order |
| `TweetCleaner.StripPunctuation` | pyTweetCleaner.py:93 | the result holds exactly the characters of the token that are not in `string.punctuation` and is no longer than the token; a token without punctuation comes back unchanged |
| `TweetCleaner.StripPunctuationConcat` | pyTweetCleaner.py:93 | deleting punctuation distributes over concatenation, so the kept characters keep their order and their number |
| `TweetCleaner.CompoundWordSplit` | pyTweetCleaner.py:53-59 | every piece found is non-empty and contains no newline |
| `TweetCleaner.ExtendMatch` | pyTweetCleaner.py:58 | a lazy match ends at the first boundary after its start, and the characters it covers are not newlines; the search fails only at a newline that comes before any boundary |
| `TweetCleaner.CompoundWordSplitCuts` | pyTweetCleaner.py:53-59 | for a word without newlines, the pieces cut the word at the first case boundary after each piece's start and nowhere else |
| `TweetCleaner.CompoundWordSplitConcat` | pyTweetCleaner.py:53-59 | for a word without newlines, the pieces are non-empty and concatenate back to the word |
| `TweetCleaner.CutsUnique` | pyTweetCleaner.py:58 | the boundary rules determine the split: at most one list of pieces satisfies them |
| `TweetCleaner.CompoundWordSplitExample` | pyTweetCleaner.py:56 | `'pyTWEETCleaner'` splits into `['py', 'TWEET', 'Cleaner']` |
| `TweetCleaner.RemoveNonAsciiChars` | pyTweetCleaner.py:61-65 | the length is kept; every output character is below 128; ASCII characters stay in place and every other character becomes a space |
| `TweetCleaner.DropLinks` | pyTweetCleaner.py:71 | the kept pieces are exactly the pieces without `"http"` |
| `TweetCleaner.DropLinksConcat` | pyTweetCleaner.py:71 | dropping links distributes over concatenation, so kept pieces keep their order |
| `TweetCleaner.RemoveHyperlinks` | pyTweetCleaner.py:67-71 | the result adds no character to the text except the joining spaces |
| `TweetCleaner.RemoveHyperlinksNoLinks` | pyTweetCleaner.py:67-71 | no space-separated piece of the result contains `"http"` |
| `TweetCleaner.RemoveHyperlinksPieces` | pyTweetCleaner.py:67-71 | when any piece survives, the pieces of the result are the link-free pieces of the input, in their original order |
| `TweetCleaner.RemoveHyperlinksIdentity` | pyTweetCleaner.py:67-71 | text without `"http"` is returned unchanged, runs of spaces included |
| `TweetCleaner.RemoveHyperlinksBetweenWords` | pyTweetCleaner.py:67-71 | a link between two link-free words is removed together with one space (`"check http://x.co now"` → `"check now"`) |
| `TweetCleaner.IsRetweet` | pyTweetCleaner.py:82 | the greedy scan accepts a text exactly when `RT @[_A-Za-z0-9]+:` matches at its start (some non-empty run of name characters after `RT @` is followed by `:`) |
| `TweetCleaner.NameRunEnd` | pyTweetCleaner.py:82 | returns the end of the longest run of `[_A-Za-z0-9]` characters from the given position |
| `TweetCleaner.RetweetCut` | pyTweetCleaner.py:84-85 | the cut `index(':') + 2` is clamped to the end of the text, as Python slicing is; its shape on a retweet is `RetweetPrefixShape` |
| `TweetCleaner.RetweetPrefixShape` | pyTweetCleaner.py:84-85 | the first `:` ends the name run; the cut-off marker is `RT @`, the name, `:` and at most one more character, at least 6 characters in all |
| `TweetCleaner.Normalize` | pyTweetCleaner.py:77-79 | after quote/hyphen substitution and the ASCII filter, the text is ASCII and has no quote and no hyphen |
| `TweetCleaner.GetCleanedText` | pyTweetCleaner.py:73-100 | a retweet cleans to `''` exactly when retweets are removed; without a retweet marker the result is the cleaned body alone (the prefix is empty) |
| `TweetCleaner.RetweetKept` | pyTweetCleaner.py:84-98 | when retweets are kept, the result is the marker, verbatim up to the first `:` plus one character, followed by the cleaned remainder |
| `TweetCleaner.RawRetweetRemoved` | pyTweetCleaner.py:77-83 | any text starting with `RT @name:`, `name` non-empty from `[_A-Za-z0-9]`, cleans to `''` when retweets are removed, whatever follows |
| `TweetCleaner.CleanBodyTokens` | pyTweetCleaner.py:91-97 | the body is the space-join of the surviving tokens with `#`/`@` restored; each surviving token is longer than one character, is not a stopword when lower-cased, and has no punctuation; each restored token is non-empty and has no punctuation besides `#` and `@` |
| `TweetCleaner.CleanBodyKeepsTokens` | pyTweetCleaner.py:93-94 | every stripped token longer than one character that is not a stopword survives |
| `TweetCleaner.KeepTokensAllKept` | pyTweetCleaner.py:94 | when every token passes the filter the list comes back unchanged, so each survivor is kept exactly once |
| `TweetCleaner.KeepTokensConcat` | pyTweetCleaner.py:94 | the token filter distributes over concatenation, so survivors keep their order |
| `TweetCleaner.CleanBodyEmpty` | pyTweetCleaner.py:95-98 | the body is empty exactly when no token survives |
| `TweetCleaner.Protect` | pyTweetCleaner.py:91 | no `#` and no `@` is left, and nothing is added but the letters of the sentinels |
| `TweetCleaner.Restore` | pyTweetCleaner.py:97 | nothing is added but `#` and `@`, and a non-empty text stays non-empty |
| `TweetCleaner.Lower` | pyTweetCleaner.py:94 | `w.lower()` on ASCII letters: the length is kept, an upper-case letter becomes the letter 32 code points further on, which is lower-case, every other character stays, and no upper-case letter is left |
| `TweetCleaner.KeepTokens` | pyTweetCleaner.py:94 | a token is kept exactly when it is longer than one character and its lower-cased form is not a stopword (both directions); order is `KeepTokensConcat` and multiplicity `KeepTokensAllKept` |
| `TweetCleaner.CleanBody` | pyTweetCleaner.py:89-97 | the body has no punctuation except `#` and `@`; its tokens and emptiness are `CleanBodyTokens` and `CleanBodyEmpty` |
| `TweetCleaner.RestoreJoin` | pyTweetCleaner.py:95-97 | restoring symbols in the space-joined text equals joining the tokens after restoring each one |
| `TweetCleaner.RestoreProtect` | pyTweetCleaner.py:91-97 | on text without upper-case letters, restoring undoes protecting, so every `#` and `@` comes back in place |
| `TweetCleaner.SentinelCollision` | pyTweetCleaner.py:91-97 | a literal `ATSYMBOL` at the front of the text comes back as `@`: the sentinels are not collision-free |
| `Strings.Join` | pyTweetCleaner.py:71 | the first part starts the result |
| `Strings.JoinLength` | pyTweetCleaner.py:71 | a join of one or more parts is as long as the parts together plus one separator between each pair of neighbours |
| `Strings.JoinChars` | pyTweetCleaner.py:71 | a join has no character besides those of the parts and the separator |
| `Strings.JoinSplit` | pyTweetCleaner.py:71 | joining the pieces of `split(c)` with `c` gives back the text |
| `Strings.SplitJoin` | pyTweetCleaner.py:71 | splitting a join of one or more pieces free of the separator gives the pieces back |
| `Strings.ReplaceAllJoin` | pyTweetCleaner.py:95-97 | replacing a space-free pattern in a space-joined text equals replacing it in every piece |
| `Strings.Contains` | pyTweetCleaner.py:71 | `'http' in w`: a prefix is contained, and a contained string is no longer than the text and has no character the text lacks |
| `Strings.FirstIndex` | pyTweetCleaner.py:84 | the index is the first occurrence of the character, or the length when there is none |
| `Strings.ReplaceAll` | pyTweetCleaner.py:77 | the result has only characters of the text or of the replacement; a one-character pattern absent from the replacement is gone afterwards |
| `Strings.Split` | pyTweetCleaner.py:71 | there is at least one piece, no piece holds the separator, and every character of a piece comes from the text |
| `TweetRecords.GetCleanedTweet` | pyTweetCleaner.py:102-130 | a tweet survives exactly when it has `created_at`, `lang` is `"en"`, both reply ids are null and the cleaned text is not `''`; a survivor's text is that cleaned text and it has no `retweeted_status` |
| `TweetRecords.CleanedTweetFields` | pyTweetCleaner.py:113-128 | a survivor holds `created_at`, `id`, `user.{id,name,screen_name,followers_count}`, `coordinates`, `place`, `retweet_count` and `entities` copied unchanged |
| `TweetRecords.DropConditions` | pyTweetCleaner.py:106-111 | each drop condition on its own drops the tweet |
| `TweetRecords.RetweetsRemoved` | pyTweetCleaner.py:82-83 | a cleaner that removes retweets drops every retweet |
| `TweetRecords.RetweetsKept` | pyTweetCleaner.py:110-111 | a cleaner that keeps retweets keeps every candidate retweet, even one with an empty body, and its text starts with the marker |
| `TweetRecords.CleanTweetLine` | pyTweetCleaner.py:145-150 | a line is written exactly when the tweet survives and, for a retweet, its original survives too; the original is attached exactly for retweets |
| `TweetRecords.CleanTweetLineNesting` | pyTweetCleaner.py:148-150 | the written record is the cleaned tweet plus the cleaned original, which carries no original of its own |
| `TweetRecords.DroppedOriginalDropsRetweet` | pyTweetCleaner.py:148-150 | a retweet whose original is dropped is not written |

## Left out

- `clean_tweets` (pyTweetCleaner.py:132-155): the file loop, `open`/`readline`/`write`/`close` and the JSON parsing and printing are I/O. Only the retweet decision of lines 148-150 is modelled (`CleanTweetLine`).
- NLTK `word_tokenize`: a foreign library. It is the `tokenize` field of `Cleaner`, and nothing is assumed about what it returns. So properties that depend on how text is tokenized are not stated. One is that cleaning already-clean text is a fixed point. Another is that `#tag` survives as one token.
- NLTK `stopwords.words('english')`: loading a corpus. The list is a parameter of `NewCleaner`.
- Python `re`: both patterns are explicit scans over characters.
- The `__main__` demo block (pyTweetCleaner.py:157-171).
- A missing key (`KeyError`): records are modelled with every field present, except that `created_at` may be absent. So the order of the drop tests makes no difference in the model.
- TweetCleaner.Lower: handles ASCII letters only. The text reaching line 94 is ASCII after `remove_non_ascii_chars`, but the model's tokenizer is unconstrained, so a non-ASCII character in a token is left as it is where `str.lower` might change it.
- JSON numbers are integers; the copied fields are never inspected.
- TweetCleaner.CompoundWordSplitCuts: the exact cut specification is proved for words without newlines only. For other input only `CompoundWordSplit`'s own contract holds: non-empty, newline-free pieces.
- TweetCleaner.RestoreProtect: proved under a sufficient condition (no upper-case letters), not for exactly the texts where the round trip holds.
- TweetCleaner.RemoveHyperlinksBetweenWords: the example is proved for any three words of that shape, not on the literal text.
- TweetCleaner.RawRetweetRemoved: the demo's retweet is covered by this general form, not by a lemma on the literal text.
- Lone surrogates: a Dafny `char` cannot hold a code point from U+D800 to U+DFFF, which `json.loads` can produce from an escaped surrogate; line 65 turns such a character into a space like any other non-ASCII character, but the model has no input that holds one.
