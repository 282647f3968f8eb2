/**
 * `prepareQueryValue`: the caller's `manipulate` transform when it is given,
 * otherwise accent folding: decompose to NFD, drop the code points of the
 * Combining Diacritical Marks block (U+0300 to U+036F), recompose to NFC
 * (Unicode Standard Annex #15, Normalization Forms).
 */
module QueryValue {
  import opened Wrappers

  /** The `query` option object; `manipulate` is the caller's transform, when present. */
  datatype QueryOptions = QueryOptions(manipulate: Option<string -> string>)

  /** `String.prototype.normalize("NFD")` and `normalize("NFC")`, which this model does not define. */
  datatype Unicode = Unicode(nfd: string -> string, nfc: string -> string)

  /** A code unit of the Combining Diacritical Marks block, the class `[\u0300-\u036f]`. */
  predicate IsCombiningMark(c: char) {
    '\U{0300}' <= c <= '\U{036F}'
  }

  /** `replace(/[\u0300-\u036f]/g, "")`: every combining mark removed, everything else kept. */
  function StripMarks(s: string): string {
    if s == [] then ""
    else StripMarks(s[..|s| - 1]) + (if IsCombiningMark(s[|s| - 1]) then "" else [s[|s| - 1]])
  }

  /** No combining mark is left, every other character is kept, and nothing is added. */
  lemma {:induction false} StripMarksKeeps(s: string)
    ensures forall c :: c in StripMarks(s) <==> c in s && !IsCombiningMark(c)
    ensures |StripMarks(s)| <= |s|
  {
    if s != [] {
      var init, last := s[..|s| - 1], s[|s| - 1];
      assert s == init + [last];
      StripMarksKeeps(init);
    }
  }

  function PrepareQueryValue(inputValue: string, query: Option<QueryOptions>, unicode: Unicode): (r: string)
    ensures query.Some? && query.value.manipulate.Some? ==> r == query.value.manipulate.value(inputValue)
    ensures query.None? || query.value.manipulate.None? ==>
      r == unicode.nfc(StripMarks(unicode.nfd(inputValue)))
  {
    if query.Some? && query.value.manipulate.Some? then query.value.manipulate.value(inputValue)
    else unicode.nfc(StripMarks(unicode.nfd(inputValue)))
  }

  /** Removing marks works piece by piece, so the order of what is kept is the input's order. */
  lemma {:induction false} StripMarksAppend(a: string, b: string)
    ensures StripMarks(a + b) == StripMarks(a) + StripMarks(b)
  {
    if b != [] {
      var b', c := b[..|b| - 1], b[|b| - 1];
      assert a + b == (a + b') + [c];
      assert (a + b)[..|a + b| - 1] == a + b';
      StripMarksAppend(a, b');
    } else {
      assert a + b == a;
    }
  }

  /** A string without combining marks is left as it is. */
  lemma {:induction false} StripMarksNoMarks(s: string)
    requires forall i | 0 <= i < |s| :: !IsCombiningMark(s[i])
    ensures StripMarks(s) == s
  {
    if s != [] {
      var init, last := s[..|s| - 1], s[|s| - 1];
      assert forall i | 0 <= i < |init| :: init[i] == s[i];
      StripMarksNoMarks(init);
      assert !IsCombiningMark(last);
      assert s == init + [last];
    }
  }

  /** Removing the marks a second time changes nothing. */
  lemma StripMarksIdempotent(s: string)
    ensures StripMarks(StripMarks(s)) == StripMarks(s)
  {
    var r := StripMarks(s);
    StripMarksKeeps(s);
    assert forall i | 0 <= i < |r| :: r[i] in r;
    StripMarksNoMarks(r);
  }

  /**
   * Three facts of Unicode normalization (Unicode Standard Annex #15) that the
   * default path relies on: NFD and NFC of a string only depend on its
   * canonical equivalence class, so NFD undoes NFC and NFC undoes NFD; and
   * removing the marks from an NFD string leaves characters that NFD does not
   * decompose any further, so NFD of it only reorders marks outside
   * U+0300..U+036F and brings none of that block back.
   */
  ghost predicate Coherent(unicode: Unicode) {
    && (forall x :: unicode.nfd(unicode.nfc(x)) == unicode.nfd(x))
    && (forall x :: unicode.nfc(unicode.nfd(x)) == unicode.nfc(x))
    && (forall x :: StripMarks(unicode.nfd(StripMarks(unicode.nfd(x)))) == unicode.nfd(StripMarks(unicode.nfd(x))))
  }

  /** Default normalization is a projection: applying it to its own output changes nothing. */
  lemma DefaultNormalizationIdempotent(s: string, unicode: Unicode)
    requires Coherent(unicode)
    ensures PrepareQueryValue(PrepareQueryValue(s, None, unicode), None, unicode) == PrepareQueryValue(s, None, unicode)
  {
    var t := StripMarks(unicode.nfd(s));
    // the second pass decomposes `nfc(t)` back to `nfd(t)`, which has no marks left to remove
    assert unicode.nfd(unicode.nfc(t)) == unicode.nfd(t);
    assert StripMarks(unicode.nfd(t)) == unicode.nfd(t);
    assert unicode.nfc(unicode.nfd(t)) == unicode.nfc(t);
  }

  /** A combining mark after a mark-free string is dropped and the string kept. */
  lemma StripMarksDropsTrailingMark(s: string, m: char)
    requires forall i | 0 <= i < |s| :: !IsCombiningMark(s[i])
    requires IsCombiningMark(m)
    ensures StripMarks(s + [m]) == s
  {
    var t := s + [m];
    assert t[..|t| - 1] == s && t[|t| - 1] == m;
    StripMarksNoMarks(s);
    assert StripMarks(t) == StripMarks(s) + "";
  }

  /** Accent folding: a query typed with an accent and one typed without it normalize alike. */
  lemma AccentedAndPlainAgree(unicode: Unicode)
    requires unicode.nfd("caf\U{00E9}") == "cafe\U{0301}"
    requires unicode.nfd("cafe") == "cafe"
    ensures PrepareQueryValue("caf\U{00E9}", None, unicode) == PrepareQueryValue("cafe", None, unicode)
  {
    var plain := "cafe";
    assert "cafe\U{0301}" == plain + ['\U{0301}'];
    StripMarksDropsTrailingMark(plain, '\U{0301}');
    StripMarksNoMarks(plain);
  }
}
