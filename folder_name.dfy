/**
  The folder-name sanitiser of save_samples.py (`sanitize_folder_name`): the
  query typed by the operator becomes the name of the per-query output folder.

  The function works in four stages, each modelled on the Python operation it uses:
    1. every character of `<>:"/\|?*` is replaced by `_`, one `str.replace` per character;
    2. `'_'.join(name.split())`: the string is cut at runs of whitespace and the
       pieces are joined with `_`;
    3. `strip('._')`: leading and trailing dots and underscores are removed;
    4. an empty result becomes the placeholder `unknown`.
*/
module FolderName {

  /** The characters Windows refuses in a file name, in the order the source replaces them. */
  const InvalidChars: string := "<>:\"/\\|?*"

  /** The characters removed from both ends of the name. */
  const StripChars: string := "._"

  /** The name used when nothing of the query survives. */
  const Placeholder: string := "unknown"

  /** Python's `str.isspace`, the separator set of `str.split()` with no argument. */
  predicate IsSpace(c: char) {
    var k := c as int;
    || 0x09 <= k <= 0x0D
    || 0x1C <= k <= 0x20
    || k == 0x85 || k == 0xA0 || k == 0x1680
    || 0x2000 <= k <= 0x200A
    || k == 0x2028 || k == 0x2029 || k == 0x202F || k == 0x205F || k == 0x3000
  }

  /** A name the sanitiser leaves as it is: non-empty, no invalid character, no
      whitespace, and neither end a dot or an underscore. */
  predicate IsCleanName(s: string) {
    && s != []
    && (forall i | 0 <= i < |s| :: s[i] !in InvalidChars && !IsSpace(s[i]))
    && s[0] !in StripChars
    && s[|s| - 1] !in StripChars
  }

  // ---------------------------------------------------------------------------
  // Stage 1: replacing the invalid characters

  /** `s.replace(from, to)` for single characters. */
  function Replace(s: string, from: char, to: char): (r: string)
    ensures |r| == |s|
    ensures forall i | 0 <= i < |s| :: r[i] == (if s[i] == from then to else s[i])
  {
    if s == [] then []
    else [if s[0] == from then to else s[0]] + Replace(s[1..], from, to)
  }

  /** The source's `for char in invalid_chars: name = name.replace(char, '_')`:
      every character of `chars` becomes `_`, any other is kept. */
  function ReplaceEach(s: string, chars: string): (r: string)
    ensures |r| == |s|
    ensures forall i | 0 <= i < |s| :: r[i] == (if s[i] in chars then '_' else s[i])
    decreases |chars|
  {
    if chars == [] then s
    else
      assert forall c :: c in chars <==> c == chars[0] || c in chars[1..] by {
        assert chars == [chars[0]] + chars[1..];
      }
      ReplaceEach(Replace(s, chars[0], '_'), chars[1..])
  }

  // ---------------------------------------------------------------------------
  // Stage 2: splitting on whitespace and joining with '_'

  /** The length of the word that starts `s`: the longest prefix without whitespace. */
  function WordLength(s: string): (n: nat)
    requires s != [] && !IsSpace(s[0])
    ensures 1 <= n <= |s|
    ensures forall i | 0 <= i < n :: !IsSpace(s[i])
    ensures n == |s| || IsSpace(s[n])
  {
    if |s| == 1 || IsSpace(s[1]) then 1 else 1 + WordLength(s[1..])
  }

  /** Python's `s.split()`: the maximal runs of non-whitespace characters, in order. */
  function Words(s: string): (ws: seq<string>)
    ensures forall k | 0 <= k < |ws| :: ws[k] != []
    ensures forall k, i | 0 <= k < |ws| && 0 <= i < |ws[k]| :: ws[k][i] in s && !IsSpace(ws[k][i])
    decreases |s|
  {
    if s == [] then []
    else if IsSpace(s[0]) then Words(s[1..])
    else
      var n := WordLength(s);
      [s[..n]] + Words(s[n..])
  }

  /** `sep.join(words)`. */
  function Join(words: seq<string>, sep: char): string {
    if words == [] then []
    else if |words| == 1 then words[0]
    else words[0] + [sep] + Join(words[1..], sep)
  }

  /** The collapse as a single left-to-right scan over the characters:
      whitespace is dropped, and a `_` goes in front of a non-whitespace
      character exactly when whitespace separates it from an earlier one.
      `gap` says whether whitespace was seen since the last kept character,
      `started` whether any character was kept yet. */
  function CollapseScan(s: string, gap: bool, started: bool): string
    decreases |s|
  {
    if s == [] then []
    else if IsSpace(s[0]) then CollapseScan(s[1..], true, started)
    else (if started && gap then "_" else "") + [s[0]] + CollapseScan(s[1..], false, true)
  }

  /** The scan copies a word and leaves the state "started, no gap". */
  lemma {:induction false} ScanWord(w: string, rest: string, gap: bool, started: bool)
    requires w != [] && forall i | 0 <= i < |w| :: !IsSpace(w[i])
    ensures CollapseScan(w + rest, gap, started)
         == (if started && gap then "_" else "") + w + CollapseScan(rest, false, true)
    decreases |w|
  {
    var s := w + rest;
    assert s[0] == w[0] && s[1..] == w[1..] + rest;
    if |w| == 1 {
      assert w[1..] + rest == rest;
      assert w == [w[0]];
    } else {
      ScanWord(w[1..], rest, false, true);
      assert w == [w[0]] + w[1..];
    }
  }

  /** The scan over whitespace only records the gap. */
  lemma {:induction false} ScanSpaces(g: string, rest: string, gap: bool, started: bool)
    requires forall i | 0 <= i < |g| :: IsSpace(g[i])
    ensures CollapseScan(g + rest, gap, started) == CollapseScan(rest, gap || g != [], started)
    decreases |g|
  {
    if g == [] {
      assert g + rest == rest;
    } else {
      assert (g + rest)[0] == g[0] && (g + rest)[1..] == g[1..] + rest;
      ScanSpaces(g[1..], rest, true, started);
    }
  }

  /** `split()` on a string that starts with a word: that word, then the words
      of the rest, which is empty or starts with whitespace. */
  lemma WordsStep(s: string)
    requires s != [] && !IsSpace(s[0])
    ensures var n := WordLength(s);
      && s == s[..n] + s[n..]
      && Words(s) == [s[..n]] + Words(s[n..])
      && Words(s) != []
      && (Words(s[n..]) != [] ==> s[n..] != [] && IsSpace(s[n..][0]))
  {
  }

  /** `split()` skips whitespace in front of the first word. */
  lemma {:induction false} WordsLeadingSpace(g: string, t: string)
    requires forall i | 0 <= i < |g| :: IsSpace(g[i])
    ensures Words(g + t) == Words(t)
    decreases |g|
  {
    if g == [] {
      assert g + t == t;
    } else {
      assert (g + t)[0] == g[0];
      assert (g + t)[1..] == g[1..] + t;
      WordsLeadingSpace(g[1..], t);
    }
  }

  /** A run of non-whitespace characters that ends at whitespace or at the end
      of the string is taken whole as the next word: the words are the
      maximal runs. */
  lemma WordsMaximalRun(w: string, t: string)
    requires w != [] && forall i | 0 <= i < |w| :: !IsSpace(w[i])
    requires t == [] || IsSpace(t[0])
    ensures Words(w + t) == [w] + Words(t)
  {
    var s := w + t;
    assert forall i | 0 <= i < |w| :: s[i] == w[i];
    assert |w| == |s| || s[|w|] == t[0];
    assert WordLength(s) == |w|;
    assert s[..|w|] == w && s[|w|..] == t;
  }

  /** The non-whitespace characters of a string, in order. */
  function NonSpace(s: string): string {
    if s == [] then [] else (if IsSpace(s[0]) then [] else [s[0]]) + NonSpace(s[1..])
  }

  /** The words laid end to end. */
  function Concat(ws: seq<string>): string {
    if ws == [] then [] else ws[0] + Concat(ws[1..])
  }

  lemma {:induction false} NonSpaceAppend(a: string, b: string)
    ensures NonSpace(a + b) == NonSpace(a) + NonSpace(b)
    decreases |a|
  {
    if a == [] {
      assert a + b == b;
    } else {
      assert (a + b)[0] == a[0];
      assert (a + b)[1..] == a[1..] + b;
      NonSpaceAppend(a[1..], b);
    }
  }

  lemma {:induction false} NonSpaceOfWord(w: string)
    requires forall i | 0 <= i < |w| :: !IsSpace(w[i])
    ensures NonSpace(w) == w
    decreases |w|
  {
    if w != [] {
      NonSpaceOfWord(w[1..]);
      assert w == [w[0]] + w[1..];
    }
  }

  /** `split()` loses no character but whitespace: the words laid end to end are
      the non-whitespace characters of the input, in order. */
  lemma {:induction false} WordsCoverNonSpace(s: string)
    ensures Concat(Words(s)) == NonSpace(s)
    decreases |s|
  {
    if s == [] {
    } else if IsSpace(s[0]) {
      WordsCoverNonSpace(s[1..]);
    } else {
      var n := WordLength(s);
      WordsStep(s);
      WordsCoverNonSpace(s[n..]);
      NonSpaceAppend(s[..n], s[n..]);
      NonSpaceOfWord(s[..n]);
      assert Concat(Words(s)) == s[..n] + Concat(Words(s[n..]));
    }
  }

  /** The scan produces the words of `split()` joined with `_`, preceded by a
      `_` when a word was kept before and whitespace separates the two. */
  lemma {:induction false} ScanJoinsWords(s: string, gap: bool, started: bool)
    ensures CollapseScan(s, gap, started)
         == if Words(s) == [] then []
            else (if started && (gap || IsSpace(s[0])) then "_" else "") + Join(Words(s), '_')
    decreases |s|
  {
    if s == [] {
    } else if IsSpace(s[0]) {
      ScanJoinsWords(s[1..], true, started);
    } else {
      var n := WordLength(s);
      var w, rest := s[..n], s[n..];
      WordsStep(s);
      ScanJoinsWords(rest, false, true);
      ScanWordThenRest(w, rest, Words(rest), gap, started);
    }
  }

  /** The step of `ScanJoinsWords` for a string that starts with the word `w`. */
  lemma ScanWordThenRest(w: string, rest: string, ws: seq<string>, gap: bool, started: bool)
    requires w != [] && forall i | 0 <= i < |w| :: !IsSpace(w[i])
    requires CollapseScan(rest, false, true) == if ws == [] then [] else "_" + Join(ws, '_')
    ensures CollapseScan(w + rest, gap, started) == (if started && gap then "_" else "") + Join([w] + ws, '_')
  {
    ScanWord(w, rest, gap, started);
    JoinPrepend(if started && gap then "_" else "", w, ws);
  }

  /** The separator algebra of `ScanWordThenRest`. */
  lemma JoinPrepend(pre: string, w: string, ws: seq<string>)
    ensures pre + w + (if ws == [] then [] else "_" + Join(ws, '_')) == pre + Join([w] + ws, '_')
  {
    if ws != [] {
      JoinCons(w, ws, '_');
      assert pre + w + ("_" + Join(ws, '_')) == pre + (w + ['_'] + Join(ws, '_'));
    } else {
      assert Join([w], '_') == w;
      assert pre + w + [] == pre + w;
    }
  }

  /** Joining a word in front of further words puts one separator between. */
  lemma JoinCons(w: string, words: seq<string>, sep: char)
    requires words != []
    ensures Join([w] + words, sep) == w + [sep] + Join(words, sep)
  {
    assert ([w] + words)[1..] == words;
  }

  /** `'_'.join(s.split())`: the same as the character scan. */
  function Collapse(s: string): (r: string)
    ensures r == CollapseScan(s, false, false)
  {
    ScanJoinsWords(s, false, false);
    Join(Words(s), '_')
  }

  /** A run of whitespace between two words becomes one `_`. */
  lemma CollapseGap(a: string, g: string, t: string)
    requires a != [] && forall i | 0 <= i < |a| :: !IsSpace(a[i])
    requires g != [] && forall i | 0 <= i < |g| :: IsSpace(g[i])
    requires t != [] && !IsSpace(t[0])
    ensures Collapse(a + g + t) == a + "_" + Collapse(t)
  {
    var tail := CollapseScan(t, true, true);
    assert a + g + t == a + (g + t);
    ScanWord(a, g + t, false, false);
    assert Collapse(a + g + t) == a + CollapseScan(g + t, false, true);
    ScanSpaces(g, t, false, true);
    assert CollapseScan(g + t, false, true) == tail;
    WordsStep(t);
    ScanJoinsWords(t, true, true);
    assert tail == "_" + Join(Words(t), '_');
    assert Collapse(t) == Join(Words(t), '_');
    assert a + ("_" + Collapse(t)) == a + "_" + Collapse(t);
  }

  /** Whitespace at the front is dropped. */
  lemma CollapseLeadingSpace(g: string, t: string)
    requires forall i | 0 <= i < |g| :: IsSpace(g[i])
    ensures Collapse(g + t) == Collapse(t)
  {
    ScanSpaces(g, t, false, false);
    ScanJoinsWords(t, g != [], false);
    ScanJoinsWords(t, false, false);
  }

  /** Whitespace at the back is dropped. */
  lemma {:induction false} ScanTrailingSpace(t: string, g: string, gap: bool, started: bool)
    requires forall i | 0 <= i < |g| :: IsSpace(g[i])
    ensures CollapseScan(t + g, gap, started) == CollapseScan(t, gap, started)
    decreases |t|
  {
    if t == [] {
      ScanSpaces(g, [], gap, started);
      assert t + g == g + [];
    } else {
      assert (t + g)[0] == t[0] && (t + g)[1..] == t[1..] + g;
      ScanTrailingSpace(t[1..], g, true, started);
      ScanTrailingSpace(t[1..], g, false, true);
    }
  }

  lemma CollapseTrailingSpace(t: string, g: string)
    requires forall i | 0 <= i < |g| :: IsSpace(g[i])
    ensures Collapse(t + g) == Collapse(t)
  {
    ScanTrailingSpace(t, g, false, false);
  }

  /** Every character of a joined string is the separator or a character of one of the words. */
  lemma {:induction false} JoinChars(words: seq<string>, sep: char, i: nat)
    requires i < |Join(words, sep)|
    ensures Join(words, sep)[i] == sep
         || exists k, j | 0 <= k < |words| && 0 <= j < |words[k]| :: Join(words, sep)[i] == words[k][j]
  {
    if |words| == 1 {
      assert words[0][i] == Join(words, sep)[i];
    } else if |words| > 1 {
      var rest := Join(words[1..], sep);
      assert Join(words, sep) == words[0] + [sep] + rest;
      if i < |words[0]| {
        assert Join(words, sep)[i] == words[0][i];
      } else if i > |words[0]| {
        JoinChars(words[1..], sep, i - |words[0]| - 1);
        assert Join(words, sep)[i] == rest[i - |words[0]| - 1];
        if rest[i - |words[0]| - 1] != sep {
          var k, j :| 0 <= k < |words[1..]| && 0 <= j < |words[1..][k]|
                      && rest[i - |words[0]| - 1] == words[1..][k][j];
          assert Join(words, sep)[i] == words[k + 1][j];
        }
      }
    }
  }

  /** After collapsing, every character is `_` or a non-whitespace character of the input. */
  lemma CollapseChars(s: string)
    ensures forall i | 0 <= i < |Collapse(s)| ::
      Collapse(s)[i] == '_' || (Collapse(s)[i] in s && !IsSpace(Collapse(s)[i]))
  {
    forall i | 0 <= i < |Collapse(s)|
      ensures Collapse(s)[i] == '_' || (Collapse(s)[i] in s && !IsSpace(Collapse(s)[i]))
    {
      JoinChars(Words(s), '_', i);
    }
  }

  /** A non-empty string without whitespace is one word, so collapsing leaves it alone. */
  lemma CollapseOneWord(s: string)
    requires s != []
    requires forall i | 0 <= i < |s| :: !IsSpace(s[i])
    ensures Collapse(s) == s
  {
    var n := WordLength(s);
    assert n == |s|;
    assert s[..n] == s;
    assert Words(s[n..]) == [] by { assert s[n..] == []; }
  }

  // ---------------------------------------------------------------------------
  // Stage 3: strip('._')

  /** Drops the dots and underscores at the front. */
  function StripLeading(s: string): (r: string)
    ensures |r| <= |s| && r == s[|s| - |r|..]
    ensures forall i | 0 <= i < |s| - |r| :: s[i] in StripChars
    ensures r != [] ==> r[0] !in StripChars
  {
    if s != [] && s[0] in StripChars then StripLeading(s[1..]) else s
  }

  /** Drops the dots and underscores at the back. */
  function StripTrailing(s: string): (r: string)
    ensures |r| <= |s| && r == s[..|r|]
    ensures forall i | |r| <= i < |s| :: s[i] in StripChars
    ensures r != [] ==> r[|r| - 1] !in StripChars
  {
    if s != [] && s[|s| - 1] in StripChars then StripTrailing(s[..|s| - 1]) else s
  }

  /** Python's `s.strip('._')`: no longer than its input, and a non-empty
      result neither starts nor ends with `.` or `_`. */
  function Strip(s: string): (r: string)
    ensures |r| <= |s|
    ensures r != [] ==> r[0] !in StripChars && r[|r| - 1] !in StripChars
  {
    var l := StripLeading(s);
    var t := StripTrailing(l);
    assert t != [] ==> t[0] == l[0];
    t
  }

  /** How many characters strip removes at the front. */
  function StripOffset(s: string): nat {
    |s| - |StripLeading(s)|
  }

  /** What strip keeps is one contiguous piece of its input whose ends are
      neither `.` nor `_`, and everything cut away on either side is `.` or `_`. */
  lemma StripSlice(s: string)
    ensures var r, a := Strip(s), StripOffset(s);
      && a + |r| <= |s|
      && r == s[a..a + |r|]
      && (forall i | 0 <= i < a :: s[i] in StripChars)
      && (forall i | a + |r| <= i < |s| :: s[i] in StripChars)
      && (r != [] ==> r[0] !in StripChars && r[|r| - 1] !in StripChars)
  {
    var l := StripLeading(s);
    var r := StripTrailing(l);
    assert Strip(s) == r;
    assert StripOffset(s) == |s| - |l|;
    PrefixOfSuffix(s, l, r);
  }

  /** A prefix `r` of a suffix `l` of `s` is a slice of `s`, and what `l` has
      after `r` is what `s` has after that slice. */
  lemma PrefixOfSuffix(s: string, l: string, r: string)
    requires |l| <= |s| && l == s[|s| - |l|..]
    requires |r| <= |l| && r == l[..|r|]
    requires forall i | |r| <= i < |l| :: l[i] in StripChars
    ensures var a := |s| - |l|;
      && a + |r| <= |s|
      && r == s[a..a + |r|]
      && forall i | a + |r| <= i < |s| :: s[i] in StripChars
  {
    var a := |s| - |l|;
    assert r == s[a..a + |r|];
    forall i | a + |r| <= i < |s| ensures s[i] in StripChars {
      assert s[i] == l[i - a];
    }
  }

  /** Strip keeps a string whose two ends are already neither `.` nor `_`. */
  lemma StripKeeps(s: string)
    requires s != [] && s[0] !in StripChars && s[|s| - 1] !in StripChars
    ensures Strip(s) == s
  {
  }

  // ---------------------------------------------------------------------------
  // The whole sanitiser

  /** The name that survives stages 1 to 3: when anything survives, it is a
      clean name. */
  function Stripped(name: string): (r: string)
    ensures r != [] ==> IsCleanName(r)
  {
    var replaced := ReplaceEach(name, InvalidChars);
    ReplacedIsValid(name);
    CollapsedIsValid(replaced);
    StrippedIsClean(Collapse(replaced));
    Strip(Collapse(replaced))
  }

  /** `sanitize_folder_name(name)`. */
  function Sanitize(name: string): (r: string)
    ensures r == Placeholder || r == Stripped(name)
  {
    var t := Stripped(name);
    if t == [] then Placeholder else t
  }

  /** The placeholder stands in exactly when nothing survives the strip; otherwise
      the survivor is the result. (The query `unknown` itself also yields it.) */
  lemma PlaceholderWhenNothingSurvives(name: string)
    ensures Stripped(name) == [] ==> Sanitize(name) == Placeholder
    ensures Stripped(name) != [] ==> Sanitize(name) == Stripped(name) && Sanitize(name) != []
  {
  }

  /** Stage 1 leaves no invalid character behind. */
  lemma ReplacedIsValid(name: string)
    ensures forall i | 0 <= i < |ReplaceEach(name, InvalidChars)| ::
      ReplaceEach(name, InvalidChars)[i] !in InvalidChars
  {
    UnderscoreIsValid();
    ReplacedAvoids(name, InvalidChars);
  }

  /** Replacing a set of characters that does not hold `_` leaves none of them. */
  lemma ReplacedAvoids(s: string, chars: string)
    requires '_' !in chars
    ensures forall i | 0 <= i < |ReplaceEach(s, chars)| :: ReplaceEach(s, chars)[i] !in chars
  {
    var r := ReplaceEach(s, chars);
    forall i | 0 <= i < |r| ensures r[i] !in chars {
      assert r[i] == (if s[i] in chars then '_' else s[i]);
    }
  }

  /** The replacement character is itself allowed in a folder name. */
  lemma UnderscoreIsValid()
    ensures '_' !in InvalidChars
  {
    forall k | 0 <= k < |InvalidChars| ensures InvalidChars[k] != '_' {
      assert InvalidChars[k] != '_';
    }
  }

  /** Stage 2 keeps a string free of invalid characters and removes all whitespace. */
  lemma CollapsedIsValid(s: string)
    requires forall i | 0 <= i < |s| :: s[i] !in InvalidChars
    ensures forall i | 0 <= i < |Collapse(s)| :: Collapse(s)[i] !in InvalidChars && !IsSpace(Collapse(s)[i])
  {
    CollapseChars(s);
  }

  /** The placeholder is itself a clean name. */
  lemma PlaceholderIsClean()
    ensures IsCleanName(Placeholder)
  {
    assert Placeholder == ['u', 'n', 'k', 'n', 'o', 'w', 'n'];
    forall i | 0 <= i < |Placeholder|
      ensures Placeholder[i] !in InvalidChars && !IsSpace(Placeholder[i])
    {
      assert 'a' <= Placeholder[i] <= 'z';
    }
  }

  /** Stage 3 keeps a string free of invalid characters and whitespace, and its
      non-empty result is a clean name. */
  lemma StrippedIsClean(s: string)
    requires forall i | 0 <= i < |s| :: s[i] !in InvalidChars && !IsSpace(s[i])
    ensures Strip(s) != [] ==> IsCleanName(Strip(s))
  {
    var t := Strip(s);
    StripSlice(s);
    var a := StripOffset(s);
    forall i | 0 <= i < |t| ensures t[i] !in InvalidChars && !IsSpace(t[i]) {
      assert t[i] == s[a + i];
    }
  }

  /** Every result is a usable folder name: non-empty, free of `<>:"/\|?*` and of
      whitespace, and neither starting nor ending with `.` or `_`. */
  lemma SanitizeIsClean(name: string)
    ensures IsCleanName(Sanitize(name))
  {
    var s1 := ReplaceEach(name, InvalidChars);
    ReplacedIsValid(name);
    CollapsedIsValid(s1);
    StrippedIsClean(Collapse(s1));
    PlaceholderIsClean();
  }

  /** A name that is already clean comes back unchanged. */
  lemma SanitizeKeepsCleanName(s: string)
    requires IsCleanName(s)
    ensures Sanitize(s) == s
  {
    assert ReplaceEach(s, InvalidChars) == s;
    CollapseOneWord(s);
    StripKeeps(s);
  }

  /** Sanitising twice gives the same folder as sanitising once. */
  lemma SanitizeIdempotent(name: string)
    ensures Sanitize(Sanitize(name)) == Sanitize(name)
  {
    SanitizeIsClean(name);
    SanitizeKeepsCleanName(Sanitize(name));
  }
}
