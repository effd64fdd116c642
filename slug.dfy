/**
 * The slug expression of scripts/convert-categories.js (lines 29 and 38):
 * `s.toLowerCase().replace(/[^a-z0-9]+/g, '-')`. The string is lower-cased
 * and then every maximal run of characters outside [a-z0-9] is replaced by a
 * single '-'.
 */
module Slug {

  /** The characters the class [a-z0-9] matches. */
  predicate IsAlnum(c: char) {
    'a' <= c <= 'z' || '0' <= c <= '9'
  }

  /** The characters a slug may contain. */
  predicate IsSlugChar(c: char) {
    IsAlnum(c) || c == '-'
  }

  predicate AllSlugChars(s: string) {
    forall i :: 0 <= i < |s| ==> IsSlugChar(s[i])
  }

  predicate AllAlnum(s: string) {
    forall i :: 0 <= i < |s| ==> IsAlnum(s[i])
  }

  /** No '-' is directly followed by another '-'. */
  predicate NoDoubleDash(s: string) {
    forall i :: 0 <= i < |s| - 1 && s[i] == '-' ==> s[i + 1] != '-'
  }

  /**
   * The lower-case form of one character, as far as it matters for the
   * slug: ASCII capitals become ASCII small letters, U+212A KELVIN SIGN
   * becomes "k" and U+0130 (capital I with dot above) becomes "i" followed
   * by U+0307. Every other character is kept: its Unicode lower-case form,
   * like the character itself, lies outside [a-z0-9].
   */
  function LowerChar(c: char): (r: string)
    ensures |r| >= 1
    ensures 'A' <= c <= 'Z' ==> r == [(c as int - 'A' as int + 'a' as int) as char]
    ensures IsSlugChar(c) ==> r == [c]
    ensures !('A' <= c <= 'Z') && c != '\U{212A}' && c != '\U{0130}' ==> r == [c]
  {
    if 'A' <= c <= 'Z' then [(c as int - 'A' as int + 'a' as int) as char]
    else if c == '\U{212A}' then "k"
    else if c == '\U{0130}' then "i\U{0307}"
    else [c]
  }

  /** `toLowerCase()` on a whole string. */
  function Lower(s: string): (r: string)
    ensures |r| >= |s|
  {
    if s == [] then [] else LowerChar(s[0]) + Lower(s[1..])
  }

  /** Lower-casing leaves a string made of slug characters unchanged. */
  lemma {:induction false} LowerOfSlugChars(s: string)
    requires AllSlugChars(s)
    ensures Lower(s) == s
  {
    if s != [] {
      LowerOfSlugChars(s[1..]);
    }
  }

  /** Drops the run of characters outside [a-z0-9] at the front of `s`. */
  function DropRun(s: string): (r: string)
    ensures |r| <= |s|
    ensures r == [] || IsAlnum(r[0])
    ensures s != [] && !IsAlnum(s[0]) ==> |r| < |s|
  {
    if s == [] || IsAlnum(s[0]) then s else DropRun(s[1..])
  }

  /**
   * `replace(/[^a-z0-9]+/g, '-')`: each maximal non-alphanumeric run becomes
   * one '-'. The result is never longer than its input, is empty only for
   * the empty string, and starts with the input's first character when that
   * one is alphanumeric and with '-' otherwise.
   */
  function Collapse(s: string): (r: string)
    ensures |r| <= |s|
    ensures r == [] <==> s == []
    ensures s != [] && IsAlnum(s[0]) ==> r[0] == s[0]
    ensures s != [] && !IsAlnum(s[0]) ==> r[0] == '-'
    decreases |s|
  {
    if s == [] then []
    else if IsAlnum(s[0]) then [s[0]] + Collapse(s[1..])
    else "-" + Collapse(DropRun(s))
  }

  /**
   * The slug of a name, as used for both category and item ids: made of
   * [a-z0-9-] only and never containing "--".
   */
  function Slugify(s: string): (r: string)
    ensures AllSlugChars(r) && NoDoubleDash(r)
  {
    CollapseChars(Lower(s));
    CollapseNoDoubleDash(Lower(s));
    Collapse(Lower(s))
  }

  /** The alphanumeric characters of a string, in order. */
  function Alnums(s: string): (r: string)
    ensures AllAlnum(r)
  {
    if s == [] then [] else (if IsAlnum(s[0]) then [s[0]] else []) + Alnums(s[1..])
  }

  lemma {:induction false} AlnumsOfDroppedRun(s: string)
    ensures Alnums(DropRun(s)) == Alnums(s)
  {
    if s != [] && !IsAlnum(s[0]) {
      AlnumsOfDroppedRun(s[1..]);
    }
  }

  /** Every character of a collapsed string is in [a-z0-9-]. */
  lemma {:induction false} CollapseChars(s: string)
    ensures AllSlugChars(Collapse(s))
    decreases |s|
  {
    if s != [] {
      if IsAlnum(s[0]) {
        CollapseChars(s[1..]);
      } else {
        CollapseChars(DropRun(s));
      }
    }
  }

  /** A collapsed string never has two '-' in a row. */
  lemma {:induction false} CollapseNoDoubleDash(s: string)
    ensures NoDoubleDash(Collapse(s))
    decreases |s|
  {
    if s != [] {
      if IsAlnum(s[0]) {
        CollapseNoDoubleDash(s[1..]);
      } else {
        var rest := DropRun(s);
        CollapseNoDoubleDash(rest);
        var r := Collapse(s);
        assert r == "-" + Collapse(rest);
        forall i | 0 <= i < |r| - 1 && r[i] == '-'
          ensures r[i + 1] != '-'
        {
          if i > 0 {
            assert r[i] == Collapse(rest)[i - 1];
          }
        }
      }
    }
  }

  /** The alphanumeric characters survive collapsing, in order. */
  lemma {:induction false} CollapseKeepsAlnums(s: string)
    ensures Alnums(Collapse(s)) == Alnums(s)
    decreases |s|
  {
    if s != [] {
      if IsAlnum(s[0]) {
        CollapseKeepsAlnums(s[1..]);
        assert Collapse(s)[1..] == Collapse(s[1..]);
      } else {
        CollapseKeepsAlnums(DropRun(s));
        AlnumsOfDroppedRun(s);
        assert Collapse(s)[1..] == Collapse(DropRun(s));
      }
    }
  }

  /** A string of slug characters without a double '-' is its own collapse. */
  lemma {:induction false} CollapseFixpoint(s: string)
    requires AllSlugChars(s) && NoDoubleDash(s)
    ensures Collapse(s) == s
    decreases |s|
  {
    if s != [] {
      if IsAlnum(s[0]) {
        CollapseFixpoint(s[1..]);
      } else {
        assert s[0] == '-';
        if |s| > 1 {
          assert s[1] != '-' && IsAlnum(s[1]);
        }
        assert DropRun(s) == s[1..];
        CollapseFixpoint(s[1..]);
      }
    }
  }

  /** The slug of a slug is the slug itself. */
  lemma SlugifyIdempotent(s: string)
    ensures Slugify(Slugify(s)) == Slugify(s)
  {
    var t := Slugify(s);
    LowerOfSlugChars(t);
    CollapseFixpoint(t);
  }

  /** A name already made of [a-z0-9] only is its own slug. */
  lemma SlugifyOfAlnum(s: string)
    requires AllAlnum(s)
    ensures Slugify(s) == s
  {
    LowerOfSlugChars(s);
    CollapseFixpoint(s);
  }

  /** The letters and digits of the lower-cased name are exactly those of its slug. */
  lemma SlugifyKeepsAlnums(s: string)
    ensures Alnums(Slugify(s)) == Alnums(Lower(s))
  {
    CollapseKeepsAlnums(Lower(s));
  }
}
