/** Default key derivation (`generate_key`) and the "already a key" test that
    makes the rewrite skip a literal. */
module KeyGen {
  import opened Strings

  /** Index of the first `>` in `s`, or `|s|` when there is none. */
  function IndexOfClose(s: string): (k: nat)
    ensures k <= |s|
    ensures k < |s| ==> s[k] == '>'
    ensures forall i :: 0 <= i < k ==> s[i] != '>'
  {
    if s == [] || s[0] == '>' then 0 else 1 + IndexOfClose(s[1..])
  }

  /** The pattern `<[^>]+>` matches at the start of `s`: a `<`, at least one
      character other than `>`, then a `>`. */
  predicate TagAtStart(s: string) {
    |s| > 0 && s[0] == '<' && 1 <= IndexOfClose(s[1..]) < |s| - 1
  }

  /** No match of `<[^>]+>` starts anywhere in `s`. */
  predicate NoTag(s: string) {
    forall i :: 0 <= i < |s| ==> !TagAtStart(s[i..])
  }

  /** `re.sub(r'<[^>]+>', '', s)`: scanning from the left, every match is
      removed and the scan resumes just after it. */
  function StripTags(s: string): (r: string)
    ensures |r| <= |s|
    ensures forall c :: c in r ==> c in s
    decreases |s|
  {
    if s == [] then []
    else if TagAtStart(s) then StripTags(s[IndexOfClose(s[1..]) + 2..])
    else [s[0]] + StripTags(s[1..])
  }

  /** `re.sub` only deletes: what is left is the text with the tags taken
      out, every other character kept in its order. */
  lemma {:induction false} StripTagsDeletesOnly(s: string)
    ensures IsSubseq(StripTags(s), s)
    decreases |s|
  {
    if s != [] {
      if TagAtStart(s) {
        var k := IndexOfClose(s[1..]) + 2;
        StripTagsDeletesOnly(s[k..]);
        SubseqOfSuffix(StripTags(s), s, k);
      } else {
        StripTagsDeletesOnly(s[1..]);
        assert StripTags(s)[1..] == StripTags(s[1..]);
      }
    }
  }

  lemma StripTagsHead(s: string)
    requires s != [] && s[0] != '<'
    ensures StripTags(s) == [s[0]] + StripTags(s[1..])
  {
  }

  lemma NoCloseIndex(s: string)
    requires '>' !in s
    ensures IndexOfClose(s) == |s|
  {
  }

  /** Whatever `re.sub` leaves behind contains no further tag. */
  lemma {:induction false} StripTagsLeavesNoTag(s: string)
    ensures NoTag(StripTags(s))
    decreases |s|
  {
    if s != [] {
      if TagAtStart(s) {
        StripTagsLeavesNoTag(s[IndexOfClose(s[1..]) + 2..]);
      } else {
        var rest := StripTags(s[1..]);
        var r := [s[0]] + rest;
        assert StripTags(s) == r;
        StripTagsLeavesNoTag(s[1..]);
        if s[0] == '<' {
          var k := IndexOfClose(s[1..]);
          if k < |s| - 1 {
            // `<>`: the `>` right after is kept, so no tag starts here.
            StripTagsHead(s[1..]);
            assert r[1..][0] == '>';
          } else {
            // No `>` after this `<` in the input, hence none in the output.
            assert '>' !in s[1..];
            assert r[1..] == rest;
            NoCloseIndex(rest);
          }
        }
        forall i | 1 <= i < |r| ensures !TagAtStart(r[i..]) {
          assert r[i..] == rest[i - 1..];
        }
        assert r[0..] == r;
      }
    }
  }

  /** Text that holds no tag comes through unchanged. */
  lemma {:induction false} StripTagsNoTag(s: string)
    requires NoTag(s)
    ensures StripTags(s) == s
    decreases |s|
  {
    if s != [] {
      assert s[0..] == s;
      forall i | 0 <= i < |s[1..]| ensures !TagAtStart(s[1..][i..]) {
        assert s[1..][i..] == s[i + 1..];
      }
      StripTagsNoTag(s[1..]);
    }
  }

  /** Removing tags twice is the same as removing them once. */
  lemma StripTagsIdempotent(s: string)
    ensures StripTags(StripTags(s)) == StripTags(s)
  {
    StripTagsLeavesNoTag(s);
    StripTagsNoTag(StripTags(s));
  }

  /** Length of the run of word characters at the start of `s`. */
  function RunLength(s: string): (n: nat)
    ensures n <= |s|
    ensures forall i :: 0 <= i < n ==> IsWordChar(s[i])
    ensures n < |s| ==> !IsWordChar(s[n])
  {
    if s == [] || !IsWordChar(s[0]) then 0 else 1 + RunLength(s[1..])
  }

  predicate AllWordChars(w: string) {
    forall i :: 0 <= i < |w| ==> IsWordChar(w[i])
  }

  /** `re.findall(r'\w+', s)`: the maximal runs of word characters, left to right. */
  function Words(s: string): (ws: seq<string>)
    ensures forall j :: 0 <= j < |ws| ==> ws[j] != [] && AllWordChars(ws[j])
    decreases |s|
  {
    if s == [] then []
    else if !IsWordChar(s[0]) then Words(s[1..])
    else
      var n := RunLength(s);
      [s[..n]] + Words(s[n..])
  }

  /** Every token is made of characters of the text. */
  lemma {:induction false} WordsChars(s: string)
    ensures forall j, c :: 0 <= j < |Words(s)| && c in Words(s)[j] ==> c in s
    decreases |s|
  {
    if s != [] {
      if !IsWordChar(s[0]) {
        WordsChars(s[1..]);
        assert forall c :: c in s[1..] ==> c in s;
      } else {
        var n := RunLength(s);
        WordsChars(s[n..]);
        forall c | c in s[n..] ensures c in s {
          var i :| 0 <= i < |s[n..]| && s[n..][i] == c;
          assert s[n + i] == c;
        }
      }
    }
  }

  /** A run of word characters is a single token. */
  lemma WordsOfWord(w: string)
    requires w != [] && AllWordChars(w)
    ensures Words(w) == [w]
  {
    assert RunLength(w) == |w|;
    assert w[..|w|] == w;
    assert w[|w|..] == [];
  }

  /** Text without a word character holds no token. */
  lemma {:induction false} WordsNone(s: string)
    requires forall c :: c in s ==> !IsWordChar(c)
    ensures Words(s) == []
    decreases |s|
  {
    if s != [] {
      WordsNone(s[1..]);
    }
  }

  lemma {:induction false} RunLengthStops(a: string, c: char, b: string)
    requires !IsWordChar(c)
    ensures RunLength(a + [c] + b) == RunLength(a)
    decreases |a|
  {
    if a != [] {
      assert (a + [c] + b)[1..] == a[1..] + [c] + b;
      RunLengthStops(a[1..], c, b);
    }
  }

  /** A non-word character splits the text: the tokens are those of the part
      before it followed by those of the part after it. Together with
      `WordsOfWord` and `Words([]) == []` this pins down what `Words` returns. */
  lemma {:induction false} WordsSplit(a: string, c: char, b: string)
    requires !IsWordChar(c)
    ensures Words(a + [c] + b) == Words(a) + Words(b)
    decreases |a|
  {
    var s := a + [c] + b;
    if a == [] {
      assert s[1..] == b;
    } else if !IsWordChar(a[0]) {
      assert s[1..] == a[1..] + [c] + b;
      WordsSplit(a[1..], c, b);
    } else {
      var n := RunLength(a);
      RunLengthStops(a, c, b);
      assert s[..n] == a[..n];
      assert s[n..] == a[n..] + [c] + b;
      WordsSplit(a[n..], c, b);
    }
  }

  /** `'_'.join(ws)`. */
  function Join(ws: seq<string>): string {
    if ws == [] then "" else if |ws| == 1 then ws[0] else ws[0] + "_" + Join(ws[1..])
  }

  function Take<T>(xs: seq<T>, n: nat): seq<T> {
    if |xs| <= n then xs else xs[..n]
  }

  /** A character that can appear in a generated key. */
  predicate IsKeyChar(c: char) {
    IsWordChar(c) && !IsUpper(c)
  }

  /** `generate_key(text)`: strip tags, lower-case, keep the first four
      `\w+` tokens and join them with `_`. Every character of the key is a
      lower-case letter, a digit or `_`. */
  function GenerateKey(text: string): (key: string)
    ensures forall c :: c in key ==> IsKeyChar(c)
  {
    JoinedWordsKeyChars(StripTags(text));
    Join(Take(Words(Lower(StripTags(text))), 4))
  }

  lemma {:induction false} JoinChars(ws: seq<string>, p: char -> bool)
    requires p('_')
    requires forall j, c :: 0 <= j < |ws| && c in ws[j] ==> p(c)
    ensures forall c :: c in Join(ws) ==> p(c)
  {
    if |ws| > 1 {
      JoinChars(ws[1..], p);
    }
  }

  lemma {:induction false} JoinEmpty(ws: seq<string>)
    requires forall j :: 0 <= j < |ws| ==> ws[j] != []
    ensures Join(ws) == [] <==> ws == []
  {
  }

  /** The first four words of a lower-cased text, joined with `_`, hold only
      lower-case letters, digits and `_`. */
  lemma JoinedWordsKeyChars(s: string)
    ensures forall c :: c in Join(Take(Words(Lower(s)), 4)) ==> IsKeyChar(c)
  {
    var low := Lower(s);
    var ws := Take(Words(low), 4);
    WordsChars(low);
    forall j, c | 0 <= j < |ws| && c in ws[j] ensures IsKeyChar(c) {
      assert ws[j] == Words(low)[j];
      assert c in low;
    }
    JoinChars(ws, IsKeyChar);
  }

  /** The key is empty exactly when the tag-stripped text has no word character. */
  lemma GenerateKeyEmpty(text: string)
    ensures GenerateKey(text) == [] <==> forall c :: c in StripTags(text) ==> !IsWordChar(c)
  {
    var stripped := StripTags(text);
    var low := Lower(stripped);
    var ws := Take(Words(low), 4);
    JoinEmpty(ws);
    if forall c :: c in stripped ==> !IsWordChar(c) {
      forall c | c in low ensures !IsWordChar(c) {
        var i :| 0 <= i < |low| && low[i] == c;
        assert stripped[i] in stripped;
      }
      WordsNone(low);
    } else {
      var c :| c in stripped && IsWordChar(c);
      var i :| 0 <= i < |stripped| && stripped[i] == c;
      assert IsWordChar(low[i]);
      assert low == low[..i] + [low[i]] + low[i + 1..];
      WordsAtWordChar(low[..i], low[i], low[i + 1..]);
    }
  }

  lemma {:induction false} WordsAtWordChar(a: string, c: char, b: string)
    requires IsWordChar(c)
    ensures Words(a + [c] + b) != []
    decreases |a|
  {
    var s := a + [c] + b;
    if a == [] {
      assert s[0] == c;
    } else if !IsWordChar(a[0]) {
      assert s[1..] == a[1..] + [c] + b;
      WordsAtWordChar(a[1..], c, b);
    }
  }

  /** A generated key derives itself: feeding it back to `generate_key` gives
      it back unchanged. */
  lemma GenerateKeyIdempotent(text: string)
    ensures GenerateKey(GenerateKey(text)) == GenerateKey(text)
  {
    var key := GenerateKey(text);
    assert NoTag(key) by {
      forall i | 0 <= i < |key| ensures !TagAtStart(key[i..]) {
        assert key[i] in key;
      }
    }
    StripTagsNoTag(key);
    assert Lower(key) == key by {
      forall i | 0 <= i < |key| ensures LowerChar(key[i]) == key[i] {
        assert key[i] in key;
      }
    }
    if key != [] {
      assert AllWordChars(key) by {
        forall i | 0 <= i < |key| ensures IsWordChar(key[i]) {
          assert key[i] in key;
        }
      }
      WordsOfWord(key);
    }
  }

  /** `\w\.\w` matches at position `i` of `t`. */
  predicate DottedAt(t: string, i: nat) {
    i + 2 < |t| && IsWordChar(t[i]) && t[i + 1] == '.' && IsWordChar(t[i + 2])
  }

  /** `re.search(r'\w\.\w', text)`: the literal already looks like a
      `namespace.key` reference, so the rewrite leaves it alone. */
  predicate IsKeyReference(t: string)
    decreases |t|
  {
    if |t| < 3 then false
    else DottedAt(t, 0) || IsKeyReference(t[1..])
  }

  /** The left-to-right scan finds a match exactly when one exists. */
  lemma {:induction false} IsKeyReferenceMeans(t: string)
    ensures IsKeyReference(t) <==> exists i: nat :: DottedAt(t, i)
    decreases |t|
  {
    if |t| >= 3 {
      IsKeyReferenceMeans(t[1..]);
      forall i: nat ensures DottedAt(t[1..], i) <==> DottedAt(t, i + 1) {
      }
      if !DottedAt(t, 0) && exists i: nat :: DottedAt(t, i) {
        var i: nat :| DottedAt(t, i);
        assert DottedAt(t[1..], i - 1);
      }
    }
  }

  /** The rewritten literal `ns.key` is recognised as a key on a later run
      whenever the namespace ends, and the key starts, with a word character. */
  lemma RewrittenLiteralIsSkipped(ns: string, key: string)
    requires ns != [] && IsWordChar(ns[|ns| - 1])
    requires key != [] && IsWordChar(key[0])
    ensures IsKeyReference(ns + "." + key)
  {
    var t := ns + "." + key;
    assert DottedAt(t, |ns| - 1);
    IsKeyReferenceMeans(t);
  }

  /** Appending the separating `.` alone creates no `\w\.\w` match. */
  lemma TrailingDotNotKey(ns: string)
    ensures IsKeyReference(ns + ".") <==> IsKeyReference(ns)
  {
    var t := ns + ".";
    IsKeyReferenceMeans(t);
    IsKeyReferenceMeans(ns);
    forall i: nat ensures DottedAt(t, i) <==> DottedAt(ns, i) {
      if i + 2 < |ns| {
        assert t[i] == ns[i] && t[i + 1] == ns[i + 1] && t[i + 2] == ns[i + 2];
      }
    }
  }

  /** A literal with no word character outside tags gets the empty key, and
      its rewrite `ns.` is not recognised as a key: a second run over the
      rewritten text processes it again. */
  lemma EmptyKeyRewriteNotSkipped(ns: string, text: string)
    requires !IsKeyReference(ns)
    requires forall c :: c in StripTags(text) ==> !IsWordChar(c)
    ensures GenerateKey(text) == ""
    ensures !IsKeyReference(ns + "." + GenerateKey(text))
  {
    GenerateKeyEmpty(text);
    assert ns + "." + "" == ns + ".";
    TrailingDotNotKey(ns);
  }

  /** Text before the first `<` is kept as it is. */
  lemma {:induction false} StripTagsPlainPrefix(a: string, b: string)
    requires '<' !in a
    ensures StripTags(a + b) == a + StripTags(b)
    decreases |a|
  {
    if a != [] {
      assert (a + b)[1..] == a[1..] + b;
      StripTagsPlainPrefix(a[1..], b);
    } else {
      assert a + b == b;
    }
  }

  /** The first `>` after a stretch without one is found right there. */
  lemma CloseAfter(a: string, b: string)
    requires '>' !in a
    ensures IndexOfClose(a + ">" + b) == |a|
  {
    var s := a + ">" + b;
    assert s[|a|] == '>';
  }

  /** A tag at the very start is removed whole. */
  lemma StripLeadingTag(t: string, rest: string)
    requires t != [] && '>' !in t
    ensures StripTags("<" + t + ">" + rest) == StripTags(rest)
  {
    var s := "<" + t + ">" + rest;
    assert s[1..] == t + ">" + rest;
    CloseAfter(t, rest);
    assert s[|t| + 2..] == rest;
  }

  /** A closing tag after plain text is dropped, the text kept. */
  lemma StripTrailingTag(text: string, close: string)
    requires close != [] && '>' !in close
    requires '<' !in text
    ensures StripTags(text + ("<" + close + ">")) == text
  {
    var closing := "<" + close + ">";
    StripTagsPlainPrefix(text, closing);
    assert closing == "<" + close + ">" + [];
    StripLeadingTag(close, []);
    assert text + [] == text;
  }

  lemma StripWrappingTags(open: string, text: string, close: string)
    requires open != [] && '>' !in open
    requires close != [] && '>' !in close
    requires '<' !in text
    ensures StripTags("<" + open + ">" + (text + ("<" + close + ">"))) == text
  {
    StripLeadingTag(open, text + ("<" + close + ">"));
    StripTrailingTag(text, close);
  }

  /** Markup around a text does not change its key: the key of
      `<b>Hello World</b>` is the key of `Hello World`. */
  lemma GenerateKeyIgnoresWrappingTags(open: string, text: string, close: string)
    requires open != [] && '>' !in open
    requires close != [] && '>' !in close
    requires '<' !in text
    ensures GenerateKey("<" + open + ">" + (text + ("<" + close + ">"))) == GenerateKey(text)
  {
    StripWrappingTags(open, text, close);
    StripTagsPlain(text);
  }

  /** Words separated by single spaces. */
  function Spaced(ws: seq<string>): string {
    if ws == [] then "" else if |ws| == 1 then ws[0] else ws[0] + " " + Spaced(ws[1..])
  }

  /** Tokenising words separated by single spaces gives the words back. */
  lemma {:induction false} WordsOfSpaced(ws: seq<string>)
    requires forall j :: 0 <= j < |ws| ==> ws[j] != [] && AllWordChars(ws[j])
    ensures Words(Spaced(ws)) == ws
  {
    if |ws| == 1 {
      WordsOfWord(ws[0]);
    } else if |ws| > 1 {
      WordsOfSpaced(ws[1..]);
      WordsOfWord(ws[0]);
      WordsSplit(ws[0], ' ', Spaced(ws[1..]));
      assert ws[0] + " " + Spaced(ws[1..]) == ws[0] + [' '] + Spaced(ws[1..]);
    }
  }

  function LowerEach(ws: seq<string>): (r: seq<string>)
    ensures |r| == |ws|
    ensures forall j :: 0 <= j < |ws| ==> r[j] == Lower(ws[j])
  {
    seq(|ws|, j requires 0 <= j < |ws| => Lower(ws[j]))
  }

  lemma {:induction false} LowerSpaced(ws: seq<string>)
    ensures Lower(Spaced(ws)) == Spaced(LowerEach(ws))
  {
    if |ws| > 1 {
      LowerSpaced(ws[1..]);
      assert LowerEach(ws)[1..] == LowerEach(ws[1..]);
      var a, b := ws[0], Spaced(ws[1..]);
      assert Lower(a + " " + b) == Lower(a) + " " + Lower(b);
    }
  }

  lemma {:induction false} SpacedNoTagOpen(ws: seq<string>)
    requires forall j :: 0 <= j < |ws| ==> AllWordChars(ws[j])
    ensures '<' !in Spaced(ws)
  {
    if |ws| > 1 {
      SpacedNoTagOpen(ws[1..]);
      assert '<' !in ws[0];
    }
  }

  /** For words separated by single spaces, the key is the `_`-join of the
      first four words, lower-cased. */
  lemma GenerateKeyOfSpaced(ws: seq<string>)
    requires forall j :: 0 <= j < |ws| ==> ws[j] != [] && AllWordChars(ws[j])
    ensures GenerateKey(Spaced(ws)) == Join(Take(LowerEach(ws), 4))
  {
    SpacedNoTagOpen(ws);
    StripTagsPlain(Spaced(ws));
    LowerSpaced(ws);
    var low := LowerEach(ws);
    forall j | 0 <= j < |low| ensures low[j] != [] && AllWordChars(low[j]) {
      assert forall i :: 0 <= i < |ws[j]| ==> IsWordChar(LowerChar(ws[j][i]));
    }
    WordsOfSpaced(low);
  }

  /** Text without `<` has no tag to strip. */
  lemma StripTagsPlain(s: string)
    requires '<' !in s
    ensures StripTags(s) == s
  {
    StripTagsPlainPrefix(s, []);
    assert s + [] == s;
  }
}
