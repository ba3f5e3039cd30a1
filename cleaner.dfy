/**
 * The text side of the `TweetCleaner` class: its configuration, the three
 * string helpers (compound-word splitting, ASCII filtering, hyperlink
 * removal) and the `get_cleaned_text` pipeline.
 *
 * The word tokenizer is a library call; it is a field of the configuration
 * and nothing is assumed about what it returns. The stopword list is given
 * when the configuration is built.
 */
module TweetCleaner {
  import opened Strings

  /** The configuration of one cleaner; it never changes after construction. */
  datatype Cleaner = Cleaner(
    stopWords: set<string>,
    removeRetweets: bool,
    tokenize: string -> seq<string>)

  /** The constructor: the stopword set is the English list when stopword
      removal is asked for and empty otherwise. */
  function NewCleaner(removeStopWords: bool, removeRetweets: bool,
                      englishStopWords: set<string>, tokenize: string -> seq<string>): (c: Cleaner)
    ensures removeStopWords ==> c.stopWords == englishStopWords
    ensures !removeStopWords ==> c.stopWords == {}
    ensures c.removeRetweets == removeRetweets
    ensures c.tokenize == tokenize
  {
    Cleaner(if removeStopWords then englishStopWords else {}, removeRetweets, tokenize)
  }

  /** Python's `string.punctuation`. */
  const Punctuation: string := "!\"#$%&'()*+,-./:;<=>?@[\\]^_`{|}~"

  // ---------------------------------------------------------------------
  // Compound-word splitting
  // ---------------------------------------------------------------------

  predicate IsLower(c: char) { 'a' <= c <= 'z' }
  predicate IsUpper(c: char) { 'A' <= c <= 'Z' }

  /** Positions `j` at which a lazy match of the compound-word pattern may
      end: a lower-case letter followed by an upper-case one, an upper-case
      letter followed by an upper-case letter that starts a lower-case run,
      or where `$` matches (the end of the text, or just before a final
      newline). */
  predicate Boundary(s: string, j: nat)
  {
    || j == |s|
    || (j + 1 == |s| && s[j] == '\n')
    || (0 < j < |s| && IsLower(s[j - 1]) && IsUpper(s[j]))
    || (0 < j && j + 1 < |s| && IsUpper(s[j - 1]) && IsUpper(s[j]) && IsLower(s[j + 1]))
  }

  /** How the search for the end of a match stops: at a boundary, or at a
      newline, which `.` cannot match. */
  datatype Stop = MatchEnd(end: nat) | Newline(at: nat)

  /** Extend a match whose last character is `s[j - 1]`, one character at a
      time, until it may end. */
  function ExtendMatch(s: string, i: nat, j: nat): (stop: Stop)
    requires i < j <= |s|
    requires forall m :: i <= m < j - 1 ==> s[m] != '\n'
    requires forall k :: i < k < j ==> !Boundary(s, k)
    ensures stop.MatchEnd? ==> j <= stop.end <= |s| && Boundary(s, stop.end)
    ensures stop.MatchEnd? ==> forall m :: i <= m < stop.end ==> s[m] != '\n'
    ensures stop.MatchEnd? ==> forall k :: i < k < stop.end ==> !Boundary(s, k)
    ensures stop.Newline? ==> i <= stop.at < |s| && s[stop.at] == '\n'
    ensures stop.Newline? ==> forall k :: i < k <= stop.at ==> !Boundary(s, k)
    decreases |s| - j
  {
    if s[j - 1] == '\n' then Newline(j - 1)
    else if Boundary(s, j) then MatchEnd(j)
    else
      assert j < |s|;
      ExtendMatch(s, i, j + 1)
  }

  /** The pieces `re.finditer` finds from position `i` on. */
  function CompoundScan(s: string, i: nat): (pieces: seq<string>)
    requires i <= |s|
    ensures forall p :: p in pieces ==> |p| > 0 && '\n' !in p
    decreases |s| - i
  {
    if i == |s| then []
    else match ExtendMatch(s, i, i + 1)
      case MatchEnd(j) =>
        [s[i..j]] + CompoundScan(s, j)
      case Newline(k) => CompoundScan(s, k + 1)
  }

  /** `compound_word_split`: the pieces of a word, cut at case transitions. */
  function CompoundWordSplit(word: string): (pieces: seq<string>)
    ensures forall p :: p in pieces ==> |p| > 0 && '\n' !in p
  {
    CompoundScan(word, 0)
  }

  /** The split described directly: `pieces` cut `s[i..]` into non-empty
      runs, each ending at the first boundary after its start. */
  ghost predicate CutAtBoundaries(s: string, i: nat, pieces: seq<string>)
    requires i <= |s|
    decreases |pieces|
  {
    if pieces == [] then i == |s|
    else
      var e := i + |pieces[0]|;
      && |pieces[0]| > 0 && e <= |s|
      && s[i..e] == pieces[0]
      && Boundary(s, e)
      && (forall k :: i < k < e ==> !Boundary(s, k))
      && CutAtBoundaries(s, e, pieces[1..])
  }

  lemma {:induction false} CompoundScanCuts(s: string, i: nat)
    requires i <= |s|
    requires '\n' !in s
    ensures CutAtBoundaries(s, i, CompoundScan(s, i))
    decreases |s| - i
  {
    if i < |s| {
      assert forall k :: 0 <= k < |s| ==> s[k] != '\n';
      match ExtendMatch(s, i, i + 1)
      case MatchEnd(j) =>
        CompoundScanCuts(s, j);
        CutStep(s, i, j, CompoundScan(s, j));
      case Newline(k) =>
        assert false;
    }
  }

  /** One more piece in front of a cut list: a run from `i` to the first
      boundary after it. */
  lemma CutStep(s: string, i: nat, j: nat, rest: seq<string>)
    requires i < j <= |s| && Boundary(s, j)
    requires forall k :: i < k < j ==> !Boundary(s, k)
    requires CutAtBoundaries(s, j, rest)
    ensures CutAtBoundaries(s, i, [s[i..j]] + rest)
  {
    assert ([s[i..j]] + rest)[1..] == rest;
  }

  /** For a word without newlines the pieces are exactly the cuts at the
      first boundary after each start. */
  lemma CompoundWordSplitCuts(word: string)
    requires '\n' !in word
    ensures CutAtBoundaries(word, 0, CompoundWordSplit(word))
  {
    CompoundScanCuts(word, 0);
  }

  lemma {:induction false} CutsConcat(s: string, i: nat, pieces: seq<string>)
    requires i <= |s|
    requires CutAtBoundaries(s, i, pieces)
    ensures Join(pieces, "") == s[i..]
    decreases |pieces|
  {
    if pieces != [] {
      var e := i + |pieces[0]|;
      CutsConcat(s, e, pieces[1..]);
      if |pieces| > 1 { JoinCons(pieces, ""); }
      assert s[i..] == s[i..e] + s[e..];
    }
  }

  /** For a word without newlines the pieces are non-empty and concatenate
      back to the word. */
  lemma CompoundWordSplitConcat(word: string)
    requires '\n' !in word
    ensures Join(CompoundWordSplit(word), "") == word
    ensures forall p :: p in CompoundWordSplit(word) ==> |p| > 0
  {
    CompoundWordSplitCuts(word);
    CutsConcat(word, 0, CompoundWordSplit(word));
  }

  /** The cuts are determined by the text: at most one list satisfies them. */
  lemma {:induction false} CutsUnique(s: string, i: nat, p: seq<string>, q: seq<string>)
    requires i <= |s|
    requires CutAtBoundaries(s, i, p) && CutAtBoundaries(s, i, q)
    ensures p == q
    decreases |p|
  {
    if p != [] && q != [] {
      var e, f := i + |p[0]|, i + |q[0]|;
      assert Boundary(s, e) && Boundary(s, f);
      assert e == f;
      assert p[0] == s[i..e] == q[0];
      CutsUnique(s, e, p[1..], q[1..]);
      assert p == [p[0]] + p[1..] && q == [q[0]] + q[1..];
    }
  }

  /** The example of the doc comment. */
  lemma CompoundWordSplitExample()
    ensures CompoundWordSplit("pyTWEETCleaner") == ["py", "TWEET", "Cleaner"]
  {
    var s := "pyTWEETCleaner";
    var expected := ["py", "TWEET", "Cleaner"];
    assert CutAtBoundaries(s, 0, expected) by {
      assert s[0..2] == "py" && s[2..7] == "TWEET" && s[7..14] == "Cleaner";
      assert Boundary(s, 2) && Boundary(s, 7) && Boundary(s, 14);
      assert !Boundary(s, 1);
      assert forall k :: 2 < k < 7 ==> !Boundary(s, k);
      assert forall k :: 7 < k < 14 ==> !Boundary(s, k);
      assert CutAtBoundaries(s, 14, []);
      assert expected[1..][1..] == ["Cleaner"];
      assert CutAtBoundaries(s, 7, ["Cleaner"]);
      assert expected[1..] == ["TWEET", "Cleaner"];
      assert CutAtBoundaries(s, 2, ["TWEET", "Cleaner"]);
    }
    assert '\n' !in s;
    CompoundWordSplitCuts(s);
    CutsUnique(s, 0, CompoundWordSplit(s), expected);
  }

  // ---------------------------------------------------------------------
  // ASCII filtering and hyperlink removal
  // ---------------------------------------------------------------------

  /** `remove_non_ascii_chars`: each character of code point 128 or more
      becomes a space; the others stay where they are. */
  function RemoveNonAsciiChars(text: string): (r: string)
    ensures |r| == |text|
    ensures forall i :: 0 <= i < |r| ==> (r[i] as int) < 128
    ensures forall i :: 0 <= i < |r| && (text[i] as int) < 128 ==> r[i] == text[i]
    ensures forall i :: 0 <= i < |r| && (text[i] as int) >= 128 ==> r[i] == ' '
  {
    seq(|text|, i requires 0 <= i < |text| => if (text[i] as int) < 128 then text[i] else ' ')
  }

  /** Filtering works character by character, so it distributes over concatenation. */
  lemma RemoveNonAsciiConcat(a: string, b: string)
    ensures RemoveNonAsciiChars(a + b) == RemoveNonAsciiChars(a) + RemoveNonAsciiChars(b)
  {
  }

  /** The pieces that do not contain "http", in their original order. */
  function DropLinks(pieces: seq<string>): (kept: seq<string>)
    ensures forall w :: w in kept ==> w in pieces && !Contains(w, "http")
    ensures forall w :: w in pieces && !Contains(w, "http") ==> w in kept
  {
    if pieces == [] then []
    else (if Contains(pieces[0], "http") then [] else [pieces[0]]) + DropLinks(pieces[1..])
  }

  /** Dropping links from two lists one after the other is dropping them from
      the concatenation: kept pieces keep their order. */
  lemma {:induction false} DropLinksConcat(a: seq<string>, b: seq<string>)
    ensures DropLinks(a + b) == DropLinks(a) + DropLinks(b)
    decreases |a|
  {
    if a != [] {
      assert (a + b)[0] == a[0];
      assert (a + b)[1..] == a[1..] + b;
      DropLinksConcat(a[1..], b);
    } else {
      assert a + b == b;
    }
  }

  /** `remove_hyperlinks`: split on single spaces, drop the pieces containing
      "http", join the rest with single spaces. Nothing is added but the
      joining spaces. */
  function RemoveHyperlinks(text: string): (r: string)
    ensures forall ch :: ch in r ==> ch == ' ' || ch in text
  {
    JoinChars(DropLinks(Split(text, ' ')), " ");
    Join(DropLinks(Split(text, ' ')), " ")
  }

  /** No space-separated piece of the result contains "http". */
  lemma RemoveHyperlinksNoLinks(text: string)
    ensures forall p :: p in Split(RemoveHyperlinks(text), ' ') ==> !Contains(p, "http")
  {
    var kept := DropLinks(Split(text, ' '));
    if kept == [] {
      assert RemoveHyperlinks(text) == [];
      assert Split([], ' ') == [[]];
    } else {
      RemoveHyperlinksPieces(text);
    }
  }

  /** When some piece survives, the pieces of the result are exactly the
      link-free pieces of the text, in their original order. */
  lemma RemoveHyperlinksPieces(text: string)
    requires DropLinks(Split(text, ' ')) != []
    ensures Split(RemoveHyperlinks(text), ' ') == DropLinks(Split(text, ' '))
  {
    var kept := DropLinks(Split(text, ' '));
    assert forall p :: p in kept ==> ' ' !in p;
    SplitJoin(kept, ' ');
  }

  /** Text without "http" passes unchanged, runs of spaces included. */
  lemma RemoveHyperlinksIdentity(text: string)
    requires !Contains(text, "http")
    ensures RemoveHyperlinks(text) == text
  {
    var pieces := Split(text, ' ');
    JoinSplit(text, ' ');
    forall k | 0 <= k < |pieces| ensures !Contains(pieces[k], "http") {
      if Contains(pieces[k], "http") {
        ContainsInJoin(pieces, " ", k, "http");
        assert false;
      }
    }
    DropLinksAllKept(pieces);
  }

  lemma {:induction false} DropLinksAllKept(pieces: seq<string>)
    requires forall k :: 0 <= k < |pieces| ==> !Contains(pieces[k], "http")
    ensures DropLinks(pieces) == pieces
    decreases |pieces|
  {
    if pieces != [] {
      DropLinksAllKept(pieces[1..]);
      assert pieces == [pieces[0]] + pieces[1..];
    }
  }

  lemma {:induction false} SplitThreeWords(a: string, l: string, b: string)
    requires ' ' !in a && ' ' !in l && ' ' !in b
    ensures Split(a + " " + l + " " + b, ' ') == [a, l, b]
  {
    var parts := [a, l, b];
    assert parts[1..][1..] == [b];
    assert Join(parts[1..], " ") == l + " " + b;
    assert Join(parts, " ") == a + " " + l + " " + b;
    SplitJoin(parts, ' ');
  }

  /** The shape of the example "check http://x.co now" -> "check now": a
      link between two words goes, together with one of the two spaces. */
  lemma RemoveHyperlinksBetweenWords(a: string, link: string, b: string)
    requires ' ' !in a && ' ' !in link && ' ' !in b
    requires Contains(link, "http") && !Contains(a, "http") && !Contains(b, "http")
    ensures RemoveHyperlinks(a + " " + link + " " + b) == a + " " + b
  {
    SplitThreeWords(a, link, b);
    var parts := [a, link, b];
    assert parts[1..][1..] == [b];
    assert DropLinks([b]) == [b] by { assert [b][1..] == []; }
    assert DropLinks(parts[1..]) == [b];
    assert Join([a, b], " ") == a + " " + b;
  }

  // ---------------------------------------------------------------------
  // Retweet prefix
  // ---------------------------------------------------------------------

  /** The class `[_A-Za-z0-9]`. */
  predicate IsNameChar(c: char)
  {
    c == '_' || 'A' <= c <= 'Z' || 'a' <= c <= 'z' || '0' <= c <= '9'
  }

  /** End of the run of name characters starting at `i`. */
  function NameRunEnd(s: string, i: nat): (j: nat)
    requires i <= |s|
    ensures i <= j <= |s|
    ensures forall k :: i <= k < j ==> IsNameChar(s[k])
    ensures j < |s| ==> !IsNameChar(s[j])
    decreases |s| - i
  {
    if i == |s| || !IsNameChar(s[i]) then i else NameRunEnd(s, i + 1)
  }

  /** `re.match(r'RT @[_A-Za-z0-9]+:', s)` as a scan: "RT @", the longest
      run of name characters, which must be non-empty, then ':'. */
  predicate IsRetweet(s: string)
    ensures IsRetweet(s) <==> MatchesRetweetPattern(s)
  {
    && |s| >= 4 && s[..4] == "RT @"
    && var j := NameRunEnd(s, 4); 4 < j < |s| && s[j] == ':'
  }

  /** The regular expression read directly: some non-empty run of name
      characters after "RT @" is followed by ':'. */
  ghost predicate MatchesRetweetPattern(s: string)
  {
    exists k :: 4 < k < |s| && s[..4] == "RT @" && s[k] == ':'
      && forall m :: 4 <= m < k ==> IsNameChar(s[m])
  }

  /** Where the retweet marker is cut off: after the first ':' and one more
      character (`s[:s.index(':') + 2]`, clamped at the end as Python slicing is). */
  function RetweetCut(s: string): (cut: nat)
    ensures cut <= |s|
  {
    var colon := FirstIndex(s, ':');
    if colon + 2 <= |s| then colon + 2 else |s|
  }

  /** The marker that is cut off is "RT @", the name, ':' and at most one
      more character; the ':' is the end of the name run. */
  lemma RetweetPrefixShape(s: string)
    requires IsRetweet(s)
    ensures var j := NameRunEnd(s, 4);
      && FirstIndex(s, ':') == j
      && RetweetCut(s) == (if j + 2 <= |s| then j + 2 else |s|)
      && RetweetCut(s) >= 6
      && s[..RetweetCut(s)][..4] == "RT @"
      && (forall m :: 4 <= m < j ==> IsNameChar(s[..RetweetCut(s)][m]))
      && s[..RetweetCut(s)][j] == ':'
  {
    var j := NameRunEnd(s, 4);
    forall k | 0 <= k < j ensures s[k] != ':' {
      if k < 4 {
        assert s[k] == s[..4][k];
      } else {
        assert IsNameChar(s[k]);
      }
    }
  }

  // ---------------------------------------------------------------------
  // get_cleaned_text
  // ---------------------------------------------------------------------

  /** Quotes removed, hyphens turned into spaces, then the ASCII filter:
      the result is ASCII and has no quotes or hyphens left. */
  function Normalize(text: string): (r: string)
    ensures forall ch :: ch in r ==>
      (ch as int) < 128 && ch != '"' && ch != '\'' && ch != '-'
  {
    RemoveNonAsciiChars(ReplaceAll(ReplaceAll(ReplaceAll(text, "\"", ""), "'", ""), "-", " "))
  }

  /** The letter-only words that stand in for `#` and `@` while punctuation
      is removed (lines 91 and 97). */
  const HashSentinel: string := "HASHTAGSYMBOL"
  const AtSentinel: string := "ATSYMBOL"

  /** Line 91: every `#` and `@` replaced by its sentinel, so that none is
      left and nothing but sentinel letters is added. */
  function Protect(s: string): (r: string)
    ensures '#' !in r && '@' !in r
    ensures forall ch :: ch in r ==> ch in s || ch in HashSentinel || ch in AtSentinel
  {
    ReplaceAll(ReplaceAll(s, "#", HashSentinel), "@", AtSentinel)
  }

  /** Line 97: every sentinel turned back into its symbol; nothing is added
      but `#` and `@`, and a non-empty text stays non-empty. */
  function Restore(s: string): (r: string)
    ensures forall ch :: ch in r ==> ch in s || ch == '#' || ch == '@'
    ensures |s| > 0 ==> |r| > 0
  {
    ReplaceAll(ReplaceAll(s, HashSentinel, "#"), AtSentinel, "@")
  }

  predicate HasNoUpper(w: string)
  {
    forall ch :: ch in w ==> !IsUpper(ch)
  }

  lemma ProtectCons(ch: char, w: string)
    ensures ch == '#' ==> Protect([ch] + w) == HashSentinel + Protect(w)
    ensures ch == '@' ==> Protect([ch] + w) == AtSentinel + Protect(w)
    ensures ch != '#' && ch != '@' ==> Protect([ch] + w) == [ch] + Protect(w)
  {
    var h := ReplaceAll(w, "#", HashSentinel);
    if ch == '#' {
      ReplaceAllFront(w, "#", HashSentinel);
      ReplaceAllSkip(HashSentinel, h, "@", AtSentinel);
    } else {
      ReplaceAllSkip([ch], w, "#", HashSentinel);
      if ch == '@' {
        ReplaceAllFront(h, "@", AtSentinel);
      } else {
        ReplaceAllSkip([ch], h, "@", AtSentinel);
      }
    }
  }

  lemma RestoreCons(w: string, p: string)
    requires w == HashSentinel || w == AtSentinel || (|w| == 1 && !IsUpper(w[0]))
    ensures w == HashSentinel ==> Restore(w + p) == "#" + Restore(p)
    ensures w == AtSentinel ==> Restore(w + p) == "@" + Restore(p)
    ensures |w| == 1 ==> Restore(w + p) == w + Restore(p)
  {
    var h := ReplaceAll(p, HashSentinel, "#");
    if w == HashSentinel {
      ReplaceAllFront(p, HashSentinel, "#");
      ReplaceAllSkip("#", h, AtSentinel, "@");
    } else if w == AtSentinel {
      ReplaceAllSkip(AtSentinel, p, HashSentinel, "#");
      ReplaceAllFront(h, AtSentinel, "@");
    } else {
      ReplaceAllSkip(w, p, HashSentinel, "#");
      ReplaceAllSkip(w, h, AtSentinel, "@");
    }
  }

  /** Restoring undoes protecting on text without upper-case letters, in
      which no sentinel can occur by accident. */
  lemma {:induction false} RestoreProtect(w: string)
    requires HasNoUpper(w)
    ensures Restore(Protect(w)) == w
    decreases |w|
  {
    if w != [] {
      var ch, rest := w[0], w[1..];
      assert w == [ch] + rest;
      assert !IsUpper(ch) by { assert ch in w; }
      assert HasNoUpper(rest) by {
        forall x | x in rest ensures !IsUpper(x) { assert x in w; }
      }
      ProtectCons(ch, rest);
      RestoreProtect(rest);
      if ch == '#' {
        RestoreCons(HashSentinel, Protect(rest));
      } else if ch == '@' {
        RestoreCons(AtSentinel, Protect(rest));
      } else {
        RestoreCons([ch], Protect(rest));
      }
    } else {
      assert Protect(w) == [];
    }
  }

  /** Without that condition the sentinels collide with the text: a literal
      "ATSYMBOL" at the front comes back as "@". */
  lemma SentinelCollision(t: string)
    requires HasNoUpper(t)
    ensures Restore(Protect(AtSentinel + t)) == "@" + t
  {
    ReplaceAllSkip(AtSentinel, t, "#", HashSentinel);
    var h := ReplaceAll(t, "#", HashSentinel);
    ReplaceAllSkip(AtSentinel, h, "@", AtSentinel);
    assert Protect(AtSentinel + t) == AtSentinel + Protect(t);
    RestoreCons(AtSentinel, Protect(t));
    RestoreProtect(t);
  }

  function RestoreEach(tokens: seq<string>): (r: seq<string>)
    ensures |r| == |tokens|
  {
    seq(|tokens|, k requires 0 <= k < |tokens| => Restore(tokens[k]))
  }

  /** `w.translate(punc_table)`: the characters of `w` outside
      `string.punctuation`, in order; a token without punctuation is left
      as it is. */
  function StripPunctuation(w: string): (r: string)
    ensures forall ch :: ch in r <==> ch in w && ch !in Punctuation
    ensures |r| <= |w|
    ensures (forall ch :: ch in w ==> ch !in Punctuation) ==> r == w
  {
    if w == [] then []
    else (if w[0] in Punctuation then [] else [w[0]]) + StripPunctuation(w[1..])
  }

  /** Deleting punctuation works character by character, so it distributes
      over concatenation: the kept characters keep their order and their
      number. */
  lemma {:induction false} StripPunctuationConcat(a: string, b: string)
    ensures StripPunctuation(a + b) == StripPunctuation(a) + StripPunctuation(b)
    decreases |a|
  {
    if a != [] {
      assert (a + b)[0] == a[0];
      assert (a + b)[1..] == a[1..] + b;
      var head := if a[0] in Punctuation then [] else [a[0]];
      var x, y := StripPunctuation(a[1..]), StripPunctuation(b);
      StripPunctuationConcat(a[1..], b);
      assert StripPunctuation(a + b) == head + (x + y);
      assert StripPunctuation(a) == head + x;
      AppendAssociative(head, x, y);
    } else {
      assert a + b == b;
    }
  }

  function StripEach(tokens: seq<string>): (r: seq<string>)
    ensures |r| == |tokens|
  {
    seq(|tokens|, k requires 0 <= k < |tokens| => StripPunctuation(tokens[k]))
  }

  /** `w.lower()` on ASCII letters: each upper-case letter becomes its
      lower-case partner, every other character stays, so no upper-case
      letter is left. */
  function Lower(w: string): (r: string)
    ensures |r| == |w|
    ensures forall k :: 0 <= k < |w| && !IsUpper(w[k]) ==> r[k] == w[k]
    ensures forall k :: 0 <= k < |w| && IsUpper(w[k]) ==> IsLower(r[k]) && r[k] as int == w[k] as int + 32
    ensures forall k :: 0 <= k < |r| ==> !IsUpper(r[k])
  {
    seq(|w|, k requires 0 <= k < |w| => if 'A' <= w[k] <= 'Z' then (w[k] as int + 32) as char else w[k])
  }

  /** Tokens kept by line 94: longer than one character and not a stopword
      once lower-cased. */
  predicate Keep(stopWords: set<string>, w: string)
  {
    Lower(w) !in stopWords && |w| > 1
  }

  function KeepTokens(stopWords: set<string>, tokens: seq<string>): (kept: seq<string>)
    ensures forall w :: w in kept ==> w in tokens && Keep(stopWords, w)
    ensures forall w :: w in tokens && Keep(stopWords, w) ==> w in kept
  {
    if tokens == [] then []
    else (if Keep(stopWords, tokens[0]) then [tokens[0]] else []) + KeepTokens(stopWords, tokens[1..])
  }

  /** When every token passes the filter, the list comes back as it is:
      each survivor is kept exactly once. */
  lemma {:induction false} KeepTokensAllKept(stopWords: set<string>, tokens: seq<string>)
    requires forall k :: 0 <= k < |tokens| ==> Keep(stopWords, tokens[k])
    ensures KeepTokens(stopWords, tokens) == tokens
    decreases |tokens|
  {
    if tokens != [] {
      KeepTokensAllKept(stopWords, tokens[1..]);
      assert tokens == [tokens[0]] + tokens[1..];
    }
  }

  /** Kept tokens keep their order. */
  lemma {:induction false} KeepTokensConcat(stopWords: set<string>, a: seq<string>, b: seq<string>)
    ensures KeepTokens(stopWords, a + b) == KeepTokens(stopWords, a) + KeepTokens(stopWords, b)
    decreases |a|
  {
    if a != [] {
      assert (a + b)[0] == a[0];
      assert (a + b)[1..] == a[1..] + b;
      KeepTokensConcat(stopWords, a[1..], b);
    } else {
      assert a + b == b;
    }
  }

  /** The tokens that survive lines 93-94 for the protected text `s`. */
  function Tokens(c: Cleaner, s: string): seq<string>
  {
    KeepTokens(c.stopWords, StripEach(c.tokenize(s)))
  }

  /** Lines 89-97: links dropped, `#` and `@` protected, tokens stripped
      and filtered, joined with spaces, `#` and `@` restored. The only
      punctuation left is `#` and `@`. */
  function CleanBody(c: Cleaner, t: string): (r: string)
    ensures forall ch :: ch in r && ch in Punctuation ==> ch == '#' || ch == '@'
  {
    var ks := Tokens(c, Protect(RemoveHyperlinks(t)));
    TokensNoPunctuation(c, Protect(RemoveHyperlinks(t)));
    RestoredJoinPunctuation(ks);
    Restore(Join(ks, " "))
  }

  /** Every surviving token is free of punctuation. */
  lemma TokensNoPunctuation(c: Cleaner, s: string)
    ensures forall w :: w in Tokens(c, s) ==> forall ch :: ch in w ==> ch !in Punctuation
  {
    var stripped := StripEach(c.tokenize(s));
    forall w | w in Tokens(c, s) ensures forall ch :: ch in w ==> ch !in Punctuation {
      var i :| 0 <= i < |stripped| && stripped[i] == w;
    }
  }

  /** Joining punctuation-free tokens with spaces and restoring the symbols
      leaves no punctuation but `#` and `@`. */
  lemma RestoredJoinPunctuation(ks: seq<string>)
    requires forall w :: w in ks ==> forall ch :: ch in w ==> ch !in Punctuation
    ensures forall ch :: ch in Restore(Join(ks, " ")) && ch in Punctuation ==> ch == '#' || ch == '@'
  {
    JoinChars(ks, " ");
  }

  /** `get_cleaned_text`. */
  function GetCleanedText(c: Cleaner, text: string): (r: string)
    ensures IsRetweet(Normalize(text)) ==> (r == [] <==> c.removeRetweets)
    ensures !IsRetweet(Normalize(text)) ==> r == CleanBody(c, Normalize(text))
  {
    var n := Normalize(text);
    if IsRetweet(n) && c.removeRetweets then []
    else
      var retweetInfo := if IsRetweet(n) then n[..RetweetCut(n)] else [];
      var rest := if IsRetweet(n) then n[RetweetCut(n)..] else n;
      assert IsRetweet(n) ==> |retweetInfo| > 0 by {
        if IsRetweet(n) { RetweetPrefixShape(n); }
      }
      retweetInfo + CleanBody(c, rest)
  }

  /** A kept retweet starts with its marker, verbatim, followed by the
      cleaned remainder. */
  lemma RetweetKept(c: Cleaner, text: string)
    requires !c.removeRetweets && IsRetweet(Normalize(text))
    ensures var n := Normalize(text);
      GetCleanedText(c, text) == n[..RetweetCut(n)] + CleanBody(c, n[RetweetCut(n)..])
  {
  }

  /** Restoring the sentinels in a space-joined text restores them in each
      token. */
  lemma RestoreJoin(tokens: seq<string>)
    ensures Restore(Join(tokens, " ")) == Join(RestoreEach(tokens), " ")
  {
    var h := ReplaceEach(tokens, HashSentinel, "#");
    ReplaceAllJoin(tokens, HashSentinel, "#");
    ReplaceAllJoin(h, AtSentinel, "@");
    assert ReplaceEach(h, AtSentinel, "@") == RestoreEach(tokens);
  }

  /** A restored token has no punctuation except the `#` and `@` it got back,
      and is not empty when the token was not. */
  lemma RestoredToken(w: string)
    requires forall ch :: ch in w ==> ch !in Punctuation
    ensures forall ch :: ch in Restore(w) && ch in Punctuation ==> ch == '#' || ch == '@'
    ensures |w| > 0 ==> |Restore(w)| > 0
  {
  }

  /** The body is the space-join of the surviving tokens with their symbols
      restored; every surviving token is longer than one character, is not
      a stopword, and has no punctuation besides a restored `#` or `@`. */
  lemma CleanBodyTokens(c: Cleaner, t: string)
    ensures var ks := Tokens(c, Protect(RemoveHyperlinks(t)));
      && CleanBody(c, t) == Join(RestoreEach(ks), " ")
      && (forall w :: w in ks ==> |w| > 1 && Lower(w) !in c.stopWords
                                  && forall ch :: ch in w ==> ch !in Punctuation)
      && (forall k :: 0 <= k < |ks| ==>
            (&& |RestoreEach(ks)[k]| > 0
             && forall ch :: ch in RestoreEach(ks)[k] && ch in Punctuation ==> ch == '#' || ch == '@'))
  {
    var ks := Tokens(c, Protect(RemoveHyperlinks(t)));
    var stripped := StripEach(c.tokenize(Protect(RemoveHyperlinks(t))));
    RestoreJoin(ks);
    forall w | w in ks ensures forall ch :: ch in w ==> ch !in Punctuation {
      var i :| 0 <= i < |stripped| && stripped[i] == w;
    }
    forall k | 0 <= k < |ks|
      ensures |RestoreEach(ks)[k]| > 0
      ensures forall ch :: ch in RestoreEach(ks)[k] && ch in Punctuation ==> ch == '#' || ch == '@'
    {
      assert ks[k] in ks;
      RestoredToken(ks[k]);
    }
  }

  /** Every stripped token that is long enough and no stopword survives. */
  lemma CleanBodyKeepsTokens(c: Cleaner, t: string, w: string)
    requires w in StripEach(c.tokenize(Protect(RemoveHyperlinks(t))))
    requires |w| > 1 && Lower(w) !in c.stopWords
    ensures w in Tokens(c, Protect(RemoveHyperlinks(t)))
  {
  }

  /** The body is empty exactly when no token survives. */
  lemma CleanBodyEmpty(c: Cleaner, t: string)
    ensures CleanBody(c, t) == [] <==> Tokens(c, Protect(RemoveHyperlinks(t))) == []
  {
    var ks := Tokens(c, Protect(RemoveHyperlinks(t)));
    CleanBodyTokens(c, t);
    JoinEmpty(RestoreEach(ks), " ");
  }

  /** With stopword removal off, every stripped token longer than one
      character survives, in order. */
  lemma {:induction false} NoStopWordsKeepsLongTokens(tokens: seq<string>)
    ensures KeepTokens({}, tokens) == LongTokens(tokens)
    decreases |tokens|
  {
    if tokens != [] { NoStopWordsKeepsLongTokens(tokens[1..]); }
  }

  /** The tokens longer than one character, in order. */
  function LongTokens(tokens: seq<string>): seq<string>
  {
    if tokens == [] then []
    else (if |tokens[0]| > 1 then [tokens[0]] else []) + LongTokens(tokens[1..])
  }

  /** Normalisation leaves a leading part that is ASCII and free of quotes
      and hyphens alone. */
  lemma NormalizeCleanPrefix(a: string, b: string)
    requires forall ch :: ch in a ==> (ch as int) < 128 && ch != '"' && ch != '\'' && ch != '-'
    ensures Normalize(a + b) == a + Normalize(b)
  {
    ReplaceAfterCleanPrefix(a, b, "\"", "");
    var b1 := ReplaceAll(b, "\"", "");
    ReplaceAfterCleanPrefix(a, b1, "'", "");
    var b2 := ReplaceAll(b1, "'", "");
    ReplaceAfterCleanPrefix(a, b2, "-", " ");
    var b3 := ReplaceAll(b2, "-", " ");
    RemoveNonAsciiConcat(a, b3);
    forall i | 0 <= i < |a| ensures (a[i] as int) < 128 { assert a[i] in a; }
    assert RemoveNonAsciiChars(a) == a;
  }

  lemma ReplaceAfterCleanPrefix(a: string, b: string, pat: string, rep: string)
    requires |pat| == 1 && pat[0] !in a
    ensures ReplaceAll(a + b, pat, rep) == a + ReplaceAll(b, pat, rep)
  {
    MissingCharNotContained(a, pat, pat[0]);
    ReplaceAllConcat(a, b, pat, rep);
    ReplaceAllAbsent(a, pat, rep);
  }

  /** "RT @", a non-empty name and ':' make a retweet, whatever follows. */
  lemma RetweetMarker(name: string, rest: string)
    requires |name| > 0 && forall ch :: ch in name ==> IsNameChar(ch)
    ensures IsRetweet("RT @" + name + ":" + rest)
  {
    var n := "RT @" + name + ":" + rest;
    assert n[..4] == "RT @";
    assert n[4 + |name|] == ':';
    forall m | 4 <= m < 4 + |name| ensures IsNameChar(n[m]) {
      assert n[m] == name[m - 4];
      assert name[m - 4] in name;
    }
  }

  /** A text that starts with "RT @name:" is a retweet after normalisation,
      whatever follows, so a cleaner that removes retweets returns ''. */
  lemma RawRetweetRemoved(c: Cleaner, name: string, rest: string)
    requires |name| > 0 && forall ch :: ch in name ==> IsNameChar(ch)
    requires c.removeRetweets
    ensures GetCleanedText(c, "RT @" + name + ":" + rest) == []
  {
    var marker := "RT @" + name + ":";
    assert "RT @" + name + ":" + rest == marker + rest;
    forall ch | ch in marker ensures (ch as int) < 128 && ch != '"' && ch != '\'' && ch != '-' {
      var i :| 0 <= i < |marker| && marker[i] == ch;
      if 4 <= i < 4 + |name| { assert ch == name[i - 4] && name[i - 4] in name; }
    }
    NormalizeCleanPrefix(marker, rest);
    assert Normalize(marker + rest) == "RT @" + name + ":" + Normalize(rest);
    RetweetMarker(name, Normalize(rest));
  }
}
