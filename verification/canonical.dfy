/**
 * Canonicalisation of a review record into the text whose hash is its
 * leaf digest: `clean_text` and the `id|asin|rating|text` key of `main.py`.
 * Unicode NFKC normalisation, `str.lower` and `str.upper` are library
 * calls kept opaque as the fields of a `TextLib`.
 */
module Canonical {
  import opened Wrappers

  /** The library text transforms the canonicaliser calls. */
  datatype TextLib = TextLib(nfkc: string -> string, lower: string -> string, upper: string -> string)

  /** A decoded review line; `rating` is already the `str()` of the JSON value. */
  datatype Record = Record(reviewId: string, asin: string, rating: string, reviewText: string)

  /** Python's `str.isspace`, which is also what `\s` matches in a `str` pattern. */
  predicate IsSpace(c: char)
  {
    var k := c as int;
    (9 <= k <= 13) || (28 <= k <= 32) || k == 0x85 || k == 0xA0 || k == 0x1680
    || (0x2000 <= k <= 0x200A) || k == 0x2028 || k == 0x2029 || k == 0x202F
    || k == 0x205F || k == 0x3000
  }

  /** The characters of `s` that are not whitespace, in order. */
  function NonSpace(s: string): string
    decreases |s|
  {
    if s == [] then [] else (if IsSpace(s[0]) then [] else [s[0]]) + NonSpace(s[1..])
  }

  lemma {:induction false} NonSpaceAppend(a: string, b: string)
    ensures NonSpace(a + b) == NonSpace(a) + NonSpace(b)
    decreases |a|
  {
    if a != [] {
      assert (a + b)[0] == a[0];
      assert (a + b)[1..] == a[1..] + b;
      NonSpaceAppend(a[1..], b);
      var h := if IsSpace(a[0]) then [] else [a[0]];
      assert NonSpace(a + b) == h + NonSpace(a[1..] + b);
      assert h + (NonSpace(a[1..]) + NonSpace(b)) == (h + NonSpace(a[1..])) + NonSpace(b);
    } else {
      assert a + b == b;
    }
  }

  // ---- `re.sub(r"<.*?>", " ", text)` ----

  /**
   * Where the shortest `.*?>` after a `<` ends in `t`: the first `>` met
   * before any newline (`.` does not match a newline), or None.
   */
  function FirstClose(t: string): (r: Option<nat>)
    ensures r.Some? ==> r.value < |t| && t[r.value] == '>'
    ensures r.Some? ==> forall k :: 0 <= k < r.value ==> t[k] != '>' && t[k] != '\n'
    ensures r.None? ==> forall k :: 0 <= k < |t| && t[k] == '>' ==> exists m :: 0 <= m < k && t[m] == '\n'
    decreases |t|
  {
    if t == [] then None
    else if t[0] == '>' then Some(0)
    else if t[0] == '\n' then None
    else match FirstClose(t[1..])
      case None =>
        assert forall k :: 0 < k < |t| && t[k] == '>' ==> t[1..][k - 1] == '>';
        assert forall m :: 0 <= m < |t| - 1 && t[1..][m] == '\n' ==> t[m + 1] == '\n';
        None
      case Some(k) => Some(k + 1)
  }

  /** Replaces every `<...>` on one line by a single space, scanning left to right. */
  function StripTags(s: string): string
    decreases |s|
  {
    if s == [] then []
    else if s[0] == '<' && FirstClose(s[1..]).Some? then
      " " + StripTags(s[FirstClose(s[1..]).value + 2..])
    else [s[0]] + StripTags(s[1..])
  }

  /** No `<` in `r` is closed by a `>` on the same line: the pattern matches nowhere. */
  ghost predicate NoTags(r: string)
  {
    forall p :: 0 <= p < |r| && r[p] == '<' ==> FirstClose(r[p + 1..]).None?
  }

  lemma {:induction false} StripTagsKeepsUnclosed(t: string)
    requires FirstClose(t).None?
    ensures FirstClose(StripTags(t)).None?
    decreases |t|
  {
    if t != [] && t[0] != '\n' {
      assert FirstClose(t[1..]).None?;
      StripTagsKeepsUnclosed(t[1..]);
      assert StripTags(t)[1..] == StripTags(t[1..]);
    }
  }

  /** After the substitution no tag is left to match. */
  lemma {:induction false} StripTagsRemovesTags(s: string)
    ensures NoTags(StripTags(s))
    decreases |s|
  {
    if s != [] {
      var r := StripTags(s);
      if s[0] == '<' && FirstClose(s[1..]).Some? {
        var rest := StripTags(s[FirstClose(s[1..]).value + 2..]);
        StripTagsRemovesTags(s[FirstClose(s[1..]).value + 2..]);
        forall p | 1 <= p < |r| && r[p] == '<'
          ensures FirstClose(r[p + 1..]).None?
        {
          assert r[p] == rest[p - 1];
          assert r[p + 1..] == rest[p..];
        }
      } else {
        var rest := StripTags(s[1..]);
        StripTagsRemovesTags(s[1..]);
        if s[0] == '<' {
          StripTagsKeepsUnclosed(s[1..]);
        }
        forall p | 0 <= p < |r| && r[p] == '<'
          ensures FirstClose(r[p + 1..]).None?
        {
          if p > 0 {
            assert r[p] == rest[p - 1];
            assert r[p + 1..] == rest[p..];
          } else {
            assert r[1..] == rest;
          }
        }
      }
    }
  }

  /** A `>` after text free of `>` and newlines closes the tag at that `>`. */
  lemma {:induction false} FirstCloseAfter(m: string, y: string)
    requires '>' !in m && '\n' !in m
    ensures FirstClose(m + ">" + y) == Some(|m|)
    decreases |m|
  {
    var t := m + ">" + y;
    if m == [] {
      assert t[0] == '>';
    } else {
      assert t[0] == m[0];
      assert t[1..] == m[1..] + ">" + y;
      FirstCloseAfter(m[1..], y);
    }
  }

  /** Text without `<` holds no tag and is left as it is. */
  lemma {:induction false} StripTagsNoOpen(s: string)
    requires '<' !in s
    ensures StripTags(s) == s
    decreases |s|
  {
    if s != [] {
      assert s[0] in s;
      assert forall k :: 0 <= k < |s| - 1 ==> s[1..][k] == s[k + 1];
      StripTagsNoOpen(s[1..]);
      assert s == [s[0]] + s[1..];
    }
  }

  /**
   * The first tag becomes one blank: text before it is kept, and the
   * scan resumes right after its `>`.
   */
  lemma {:induction false} StripTagsOneTag(x: string, m: string, y: string)
    requires '<' !in x && '>' !in m && '\n' !in m
    ensures StripTags(x + "<" + m + ">" + y) == x + " " + StripTags(y)
    decreases |x|
  {
    var s := x + "<" + m + ">" + y;
    if x == [] {
      assert s == "<" + (m + ">" + y);
      assert s[1..] == m + ">" + y;
      FirstCloseAfter(m, y);
      assert s[|m| + 2..] == y;
    } else {
      assert x[0] in x;
      assert s[0] == x[0];
      assert s[1..] == x[1..] + "<" + m + ">" + y;
      assert forall k :: 0 <= k < |x| - 1 ==> x[1..][k] == x[k + 1];
      StripTagsOneTag(x[1..], m, y);
      assert x == [x[0]] + x[1..];
    }
  }

  // ---- `re.sub(r"\s+", " ", text)` and `str.strip()` ----

  /** Number of whitespace characters `s` starts with. */
  function LeadingSpaces(s: string): (n: nat)
    ensures n <= |s|
    ensures forall k :: 0 <= k < n ==> IsSpace(s[k])
    ensures n < |s| ==> !IsSpace(s[n])
    decreases |s|
  {
    if s != [] && IsSpace(s[0]) then 1 + LeadingSpaces(s[1..]) else 0
  }

  /** Number of whitespace characters `s` ends with. */
  function TrailingSpaces(s: string): (n: nat)
    ensures n <= |s|
    ensures forall k :: |s| - n <= k < |s| ==> IsSpace(s[k])
    ensures n < |s| ==> !IsSpace(s[|s| - n - 1])
    decreases |s|
  {
    if s != [] && IsSpace(s[|s| - 1]) then 1 + TrailingSpaces(s[..|s| - 1]) else 0
  }

  /** `s` without its leading whitespace. */
  function TrimStart(s: string): string
  {
    s[LeadingSpaces(s)..]
  }

  /** `s` without its trailing whitespace. */
  function TrimEnd(s: string): string
  {
    s[..|s| - TrailingSpaces(s)]
  }

  lemma {:induction false} NonSpaceOfSpaces(s: string)
    requires forall k :: 0 <= k < |s| ==> IsSpace(s[k])
    ensures NonSpace(s) == []
    decreases |s|
  {
    if s != [] {
      NonSpaceOfSpaces(s[1..]);
    }
  }

  /** Trimming either end removes whitespace only. */
  lemma TrimKeepsNonSpace(s: string)
    ensures NonSpace(TrimStart(s)) == NonSpace(s)
    ensures NonSpace(TrimEnd(s)) == NonSpace(s)
  {
    var a := LeadingSpaces(s);
    var w, x := s[..a], s[a..];
    assert forall k :: 0 <= k < |w| ==> w[k] == s[k];
    assert s == w + x;
    NonSpaceAppend(w, x);
    NonSpaceOfSpaces(w);
    var b := |s| - TrailingSpaces(s);
    var y, v := s[..b], s[b..];
    assert forall k :: 0 <= k < |v| ==> v[k] == s[b + k];
    assert s == y + v;
    NonSpaceAppend(y, v);
    NonSpaceOfSpaces(v);
  }

  /** Python's `str.strip()` with no argument. */
  function Strip(s: string): string
  {
    TrimEnd(TrimStart(s))
  }

  /** `strip()` leaves no whitespace at either end and removes nothing else. */
  lemma StripTrimsBothEnds(s: string)
    ensures Strip(s) == [] || (!IsSpace(Strip(s)[0]) && !IsSpace(Strip(s)[|Strip(s)| - 1]))
    ensures NonSpace(Strip(s)) == NonSpace(s)
  {
    TrimKeepsNonSpace(s);
    TrimKeepsNonSpace(TrimStart(s));
  }


  /** Number of non-whitespace characters `s` starts with. */
  function LeadingNonSpaces(s: string): (n: nat)
    ensures n <= |s|
    ensures forall k :: 0 <= k < n ==> !IsSpace(s[k])
    ensures n < |s| ==> IsSpace(s[n])
    decreases |s|
  {
    if s != [] && !IsSpace(s[0]) then 1 + LeadingNonSpaces(s[1..]) else 0
  }

  /** The words of `s`: its maximal runs of non-whitespace characters, in order. */
  function Words(s: string): seq<string>
    decreases |s|
  {
    if s == [] then []
    else if IsSpace(s[0]) then Words(s[1..])
    else
      var n := LeadingNonSpaces(s);
      [s[..n]] + Words(s[n..])
  }

  /** Whitespace in front of a text adds no word. */
  lemma {:induction false} WordsSpacePrefix(w: string, x: string)
    requires forall k :: 0 <= k < |w| ==> IsSpace(w[k])
    ensures Words(w + x) == Words(x)
    decreases |w|
  {
    if w != [] {
      assert (w + x)[0] == w[0];
      assert (w + x)[1..] == w[1..] + x;
      assert Words(w + x) == Words(w[1..] + x);
      WordsSpacePrefix(w[1..], x);
    } else {
      assert w + x == x;
    }
  }

  /** Whitespace after a text adds no word and does not lengthen the last one. */
  lemma {:induction false} WordsSpaceSuffix(x: string, w: string)
    requires forall k :: 0 <= k < |w| ==> IsSpace(w[k])
    ensures Words(x + w) == Words(x)
    decreases |x|
  {
    if x == [] {
      assert x + w == w + [];
      WordsSpacePrefix(w, []);
    } else if IsSpace(x[0]) {
      assert (x + w)[1..] == x[1..] + w;
      WordsSpaceSuffix(x[1..], w);
    } else {
      var n := LeadingNonSpaces(x);
      var m := LeadingNonSpaces(x + w);
      assert n < |x + w| ==> IsSpace((x + w)[n]);
      assert m == n;
      assert (x + w)[..n] == x[..n];
      assert (x + w)[n..] == x[n..] + w;
      WordsSpaceSuffix(x[n..], w);
    }
  }

  /** A non-whitespace character in front of a text starts a word or lengthens its first word. */
  lemma WordsCons(c: char, x: string)
    requires !IsSpace(c)
    ensures x == [] || IsSpace(x[0]) ==> Words([c] + x) == [[c]] + Words(x)
    ensures x != [] && !IsSpace(x[0]) ==>
      Words(x) != [] && Words([c] + x) == [[c] + Words(x)[0]] + Words(x)[1..]
  {
    var s := [c] + x;
    var n := LeadingNonSpaces(s);
    assert s[1..] == x;
    assert n == 1 + LeadingNonSpaces(x);
    assert s[..n] == [c] + x[..n - 1];
    assert s[n..] == x[n - 1..];
  }

  /** Trimming whitespace from the front keeps the words. */
  lemma TrimStartKeepsWords(s: string)
    ensures Words(TrimStart(s)) == Words(s)
  {
    var a := LeadingSpaces(s);
    var w, x := s[..a], s[a..];
    assert forall k :: 0 <= k < |w| ==> w[k] == s[k];
    assert s == w + x;
    WordsSpacePrefix(w, x);
  }

  /** Trimming whitespace from the back keeps the words. */
  lemma TrimEndKeepsWords(s: string)
    ensures Words(TrimEnd(s)) == Words(s)
  {
    var b := |s| - TrailingSpaces(s);
    var x, w := s[..b], s[b..];
    assert forall k :: 0 <= k < |w| ==> w[k] == s[b + k];
    assert s == x + w;
    WordsSpaceSuffix(x, w);
  }

  /** Every whitespace character of `t` is a plain space. */
  ghost predicate BlanksOnly(t: string)
  {
    forall k :: 0 <= k < |t| && IsSpace(t[k]) ==> t[k] == ' '
  }

  /** No two neighbouring characters of `t` are both whitespace. */
  ghost predicate NoDoubleSpace(t: string)
  {
    forall k :: 0 <= k < |t| - 1 ==> !IsSpace(t[k]) || !IsSpace(t[k + 1])
  }

  /** Whitespace-normal text: single blanks between words and none at either end. */
  ghost predicate WhitespaceCanonical(t: string)
  {
    (t == [] || (!IsSpace(t[0]) && !IsSpace(t[|t| - 1]))) && NoDoubleSpace(t) && BlanksOnly(t)
  }

  /** Replaces every maximal run of whitespace by one space. */
  function CollapseSpaces(s: string): (r: string)
    ensures |r| == 0 <==> |s| == 0
    ensures r != [] ==> (IsSpace(r[0]) <==> IsSpace(s[0]))
    ensures BlanksOnly(r) && NoDoubleSpace(r)
    ensures NonSpace(r) == NonSpace(s)
    decreases |s|
  {
    if s == [] then []
    else if IsSpace(s[0]) then
      var rest := TrimStart(s);
      TrimKeepsNonSpace(s);
      var r := " " + CollapseSpaces(rest);
      assert r[1..] == CollapseSpaces(rest);
      r
    else
      var r := [s[0]] + CollapseSpaces(s[1..]);
      assert r[1..] == CollapseSpaces(s[1..]);
      r
  }

  /**
   * Collapsing keeps the words, so each whitespace run between two words
   * becomes exactly one blank.
   */
  lemma {:induction false} CollapseKeepsWords(s: string)
    ensures Words(CollapseSpaces(s)) == Words(s)
    decreases |s|
  {
    if s != [] {
      if IsSpace(s[0]) {
        var rest := TrimStart(s);
        CollapseKeepsWords(rest);
        TrimStartKeepsWords(s);
        WordsSpacePrefix(" ", CollapseSpaces(rest));
      } else {
        var c := CollapseSpaces(s[1..]);
        CollapseKeepsWords(s[1..]);
        assert s == [s[0]] + s[1..];
        WordsCons(s[0], c);
        WordsCons(s[0], s[1..]);
      }
    }
  }

  /** The collapsed text ends with whitespace exactly when the input does. */
  lemma {:induction false} CollapseKeepsLastSpace(s: string)
    requires s != []
    ensures IsSpace(CollapseSpaces(s)[|CollapseSpaces(s)| - 1]) <==> IsSpace(s[|s| - 1])
    decreases |s|
  {
    var r := CollapseSpaces(s);
    if IsSpace(s[0]) {
      var rest := TrimStart(s);
      if rest != [] {
        CollapseKeepsLastSpace(rest);
        assert r[|r| - 1] == CollapseSpaces(rest)[|CollapseSpaces(rest)| - 1];
        assert rest[|rest| - 1] == s[|s| - 1];
      }
    } else if |s| > 1 {
      CollapseKeepsLastSpace(s[1..]);
      assert r[|r| - 1] == CollapseSpaces(s[1..])[|CollapseSpaces(s[1..])| - 1];
    }
  }

  /** The whitespace stages of `clean_text`: tags out, runs collapsed, ends stripped. */
  function Normalize(s: string): (r: string)
    ensures WhitespaceCanonical(r)
    ensures Words(r) == Words(StripTags(s))
    ensures NonSpace(r) == NonSpace(StripTags(s))
  {
    var c := CollapseSpaces(StripTags(s));
    CollapseKeepsWords(StripTags(s));
    StripTrimsBothEnds(c);
    StripKeepsBlanks(c);
    StripKeepsWords(c);
    Strip(c)
  }

  /** Stripping a text of single blanks leaves a text of single blanks. */
  lemma StripKeepsBlanks(c: string)
    requires BlanksOnly(c) && NoDoubleSpace(c)
    ensures BlanksOnly(Strip(c)) && NoDoubleSpace(Strip(c))
  {
    var t := TrimStart(c);
    SliceKeepsBlanks(c, LeadingSpaces(c), |c|);
    SliceKeepsBlanks(t, 0, |t| - TrailingSpaces(t));
  }

  /** Stripping keeps the words. */
  lemma StripKeepsWords(c: string)
    ensures Words(Strip(c)) == Words(c)
  {
    TrimStartKeepsWords(c);
    TrimEndKeepsWords(TrimStart(c));
  }

  lemma SliceKeepsBlanks(c: string, lo: nat, hi: nat)
    requires lo <= hi <= |c|
    requires BlanksOnly(c) && NoDoubleSpace(c)
    ensures BlanksOnly(c[lo..hi]) && NoDoubleSpace(c[lo..hi])
  {
    var t := c[lo..hi];
    forall k | 0 <= k < |t| - 1
      ensures !IsSpace(t[k]) || !IsSpace(t[k + 1])
    {
      assert t[k] == c[lo + k] && t[k + 1] == c[lo + k + 1];
    }
  }

  /**
   * `clean_text`: empty input gives empty text; otherwise NFKC, tag
   * removal, whitespace collapse, strip, lower-case.
   */
  function CleanText(lib: TextLib, text: string): (r: string)
    ensures text == [] ==> r == []
    ensures text != [] ==> exists t :: WhitespaceCanonical(t) && Words(t) == Words(StripTags(lib.nfkc(text))) && r == lib.lower(t)
  {
    if text == [] then [] else
      var t := Normalize(lib.nfkc(text));
      assert WhitespaceCanonical(t) && Words(t) == Words(StripTags(lib.nfkc(text)));
      lib.lower(t)
  }

  // ---- the leaf key ----

  /** Four fields joined by `|`. */
  function Join4(a: string, b: string, c: string, d: string): string
  {
    a + "|" + b + "|" + c + "|" + d
  }

  /** The text hashed into a record's leaf digest. */
  function LeafKey(lib: TextLib, rec: Record): string
  {
    Join4(rec.reviewId, lib.upper(Strip(rec.asin)), Strip(rec.rating), CleanText(lib, rec.reviewText))
  }

  /** The leaf digest of a record. */
  function LeafDigest(H: string -> string, lib: TextLib, rec: Record): string
  {
    H(LeafKey(lib, rec))
  }

  /** Position of the first `|` in `u`. */
  function FirstBar(u: string): Option<nat>
    decreases |u|
  {
    if u == [] then None
    else if u[0] == '|' then Some(0)
    else match FirstBar(u[1..])
      case None => None
      case Some(k) => Some(k + 1)
  }

  lemma {:induction false} FirstBarAfterField(a: string, r: string)
    requires '|' !in a
    ensures FirstBar(a + "|" + r) == Some(|a|)
    decreases |a|
  {
    if a != [] {
      assert (a + "|" + r)[1..] == a[1..] + "|" + r;
      FirstBarAfterField(a[1..], r);
    }
  }

  /** A field free of `|` followed by `|` is read back unambiguously. */
  lemma SplitAtBar(a: string, r: string, a': string, r': string)
    requires '|' !in a && '|' !in a'
    requires a + "|" + r == a' + "|" + r'
    ensures a == a' && r == r'
  {
    var u, u' := a + "|" + r, a' + "|" + r';
    FirstBarAfterField(a, r);
    FirstBarAfterField(a', r');
    assert a == u[..|a|] && a' == u'[..|a'|];
    assert r == u[|a| + 1..] && r' == u'[|a'| + 1..];
  }

  /**
   * When the first three fields are free of `|` the key determines all four
   * fields (the last may contain `|`); equal fields give equal keys.
   */
  lemma Join4Injective(a: string, b: string, c: string, d: string, a': string, b': string, c': string, d': string)
    requires '|' !in a && '|' !in b && '|' !in c
    requires '|' !in a' && '|' !in b' && '|' !in c'
    ensures Join4(a, b, c, d) == Join4(a', b', c', d') <==> (a == a' && b == b' && c == c' && d == d')
  {
    if Join4(a, b, c, d) == Join4(a', b', c', d') {
      assert Join4(a, b, c, d) == a + "|" + (b + "|" + c + "|" + d);
      assert Join4(a', b', c', d') == a' + "|" + (b' + "|" + c' + "|" + d');
      SplitAtBar(a, b + "|" + c + "|" + d, a', b' + "|" + c' + "|" + d');
      assert b + "|" + c + "|" + d == b + "|" + (c + "|" + d);
      assert b' + "|" + c' + "|" + d' == b' + "|" + (c' + "|" + d');
      SplitAtBar(b, c + "|" + d, b', c' + "|" + d');
      SplitAtBar(c, d, c', d');
    }
  }

  /**
   * Two records have the same leaf key exactly when their canonical fields
   * agree, provided the id, asin and rating fields hold no `|`.
   */
  lemma LeafKeyInjective(lib: TextLib, r1: Record, r2: Record)
    requires '|' !in r1.reviewId && '|' !in lib.upper(Strip(r1.asin)) && '|' !in Strip(r1.rating)
    requires '|' !in r2.reviewId && '|' !in lib.upper(Strip(r2.asin)) && '|' !in Strip(r2.rating)
    ensures LeafKey(lib, r1) == LeafKey(lib, r2) <==>
      (r1.reviewId == r2.reviewId && lib.upper(Strip(r1.asin)) == lib.upper(Strip(r2.asin))
       && Strip(r1.rating) == Strip(r2.rating)
       && CleanText(lib, r1.reviewText) == CleanText(lib, r2.reviewText))
  {
    Join4Injective(r1.reviewId, lib.upper(Strip(r1.asin)), Strip(r1.rating), CleanText(lib, r1.reviewText),
                   r2.reviewId, lib.upper(Strip(r2.asin)), Strip(r2.rating), CleanText(lib, r2.reviewText));
  }

  /** A `|` inside the first field makes two different records share a key. */
  lemma BarInFieldIsAmbiguous()
    ensures Join4("a|", "", "x", "y") == Join4("a", "|", "x", "y")
  {
  }
}
