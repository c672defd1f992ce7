/** Character-level helpers: ASCII upper-casing, substring containment, the
    `LIKE '%needle%'` test of SQLite and the byte-wise text order SQLite uses to
    compare TEXT values. */
module Text {

  /** ASCII upper-casing of one character; every other character is kept. */
  function UpperChar(c: char): (u: char)
    ensures 'a' <= c <= 'z' ==> u as int == c as int - 32
    ensures !('a' <= c <= 'z') ==> u == c
    ensures !('a' <= u <= 'z')
  {
    if 'a' <= c <= 'z' then (c as int - 32) as char else c
  }

  function AsciiUpper(s: string): (u: string)
    ensures |u| == |s|
    ensures forall i :: 0 <= i < |s| ==> u[i] == UpperChar(s[i])
  {
    seq(|s|, i requires 0 <= i < |s| => UpperChar(s[i]))
  }

  lemma UpperConcat(a: string, b: string)
    ensures AsciiUpper(a + b) == AsciiUpper(a) + AsciiUpper(b)
  {
    var l, r := AsciiUpper(a + b), AsciiUpper(a) + AsciiUpper(b);
    assert |l| == |r|;
    forall i | 0 <= i < |l| ensures l[i] == r[i] {
      if i < |a| { assert (a + b)[i] == a[i]; } else { assert (a + b)[i] == b[i - |a|]; }
    }
  }

  predicate IsPrefix(p: string, s: string) {
    |p| <= |s| && s[..|p|] == p
  }

  /** `needle` occurs as a contiguous run of characters somewhere in `hay`. */
  predicate IsSubstring(needle: string, hay: string)
    decreases |hay|
  {
    IsPrefix(needle, hay) || (|hay| > 0 && IsSubstring(needle, hay[1..]))
  }

  lemma {:induction false} SubstringAt(needle: string, hay: string, i: nat)
    requires i + |needle| <= |hay| && hay[i..i + |needle|] == needle
    ensures IsSubstring(needle, hay)
    decreases i
  {
    if i > 0 {
      assert hay[1..][i - 1..i - 1 + |needle|] == hay[i..i + |needle|];
      SubstringAt(needle, hay[1..], i - 1);
    }
  }

  /** Any text placed between two others is found. */
  lemma SubstringOfMiddle(a: string, needle: string, b: string)
    ensures IsSubstring(needle, a + needle + b)
  {
    var hay := a + needle + b;
    assert hay[|a|..|a| + |needle|] == needle;
    SubstringAt(needle, hay, |a|);
  }

  /** SQLite's `value LIKE '%needle%'` with the default case-insensitive
      matching of ASCII letters (the needle's `%` and `_` are taken literally). */
  predicate LikeContains(value: string, needle: string) {
    IsSubstring(AsciiUpper(needle), AsciiUpper(value))
  }

  lemma LikeContainsMiddle(a: string, needle: string, b: string)
    ensures LikeContains(a + needle + b, needle)
  {
    UpperConcat(a + needle, b);
    UpperConcat(a, needle);
    SubstringOfMiddle(AsciiUpper(a), AsciiUpper(needle), AsciiUpper(b));
  }

  /** A substring of a text is a substring of anything that contains the text. */
  lemma {:induction false} SubstringWithin(needle: string, hay: string, a: string, b: string)
    requires IsSubstring(needle, hay)
    ensures IsSubstring(needle, a + hay + b)
    decreases |hay|
  {
    if IsPrefix(needle, hay) {
      var whole := a + hay + b;
      assert whole[|a|..|a| + |needle|] == hay[..|needle|];
      SubstringAt(needle, whole, |a|);
    } else {
      assert a + hay + b == (a + [hay[0]]) + hay[1..] + b;
      SubstringWithin(needle, hay[1..], a + [hay[0]], b);
    }
  }

  lemma LikeContainsWithin(value: string, needle: string, a: string, b: string)
    requires LikeContains(value, needle)
    ensures LikeContains(a + value + b, needle)
  {
    UpperConcat(a + value, b);
    UpperConcat(a, value);
    SubstringWithin(AsciiUpper(needle), AsciiUpper(value), AsciiUpper(a), AsciiUpper(b));
  }

  /** Every character lies in printable ASCII, space to tilde. */
  predicate Printable(s: string) {
    forall k :: 0 <= k < |s| ==> ' ' <= s[k] <= '~'
  }

  lemma PrintableConcat(a: string, b: string)
    requires Printable(a) && Printable(b)
    ensures Printable(a + b)
  {
    assert forall k :: |a| <= k < |a + b| ==> (a + b)[k] == b[k - |a|];
  }

  /** Every character of a substring occurs in the text. */
  lemma {:induction false} SubstringChars(needle: string, hay: string)
    requires IsSubstring(needle, hay)
    ensures forall k :: 0 <= k < |needle| ==> needle[k] in hay
    decreases |hay|
  {
    if IsPrefix(needle, hay) {
      forall k | 0 <= k < |needle| ensures needle[k] in hay {
        assert hay[..|needle|][k] == hay[k];
      }
    } else {
      SubstringChars(needle, hay[1..]);
      forall k | 0 <= k < |needle| ensures needle[k] in hay {
        var m :| 0 <= m < |hay[1..]| && hay[1..][m] == needle[k];
        assert hay[m + 1] == needle[k];
      }
    }
  }

  /** A needle holding a character outside printable ASCII is never found
      in printable text: upper-casing keeps that character as it is. */
  lemma LikeNeverFindsUnprintable(value: string, needle: string, k: nat)
    requires Printable(value) && k < |needle| && !(' ' <= needle[k] <= '~')
    ensures !LikeContains(value, needle)
  {
    if LikeContains(value, needle) {
      SubstringChars(AsciiUpper(needle), AsciiUpper(value));
      assert false;
    }
  }

  /** Text order of SQLite's BINARY collation: compare character by character,
      a proper prefix sorts first. */
  predicate TextLe(a: string, b: string)
    decreases |a|
  {
    if a == [] then true
    else if b == [] then false
    else if a[0] != b[0] then a[0] < b[0]
    else TextLe(a[1..], b[1..])
  }

  lemma {:induction false} TextLeTotal(a: string, b: string)
    ensures TextLe(a, b) || TextLe(b, a)
    decreases |a|
  {
    if a != [] && b != [] && a[0] == b[0] {
      TextLeTotal(a[1..], b[1..]);
    }
  }

  lemma {:induction false} TextLeTransitive(a: string, b: string, c: string)
    requires TextLe(a, b) && TextLe(b, c)
    ensures TextLe(a, c)
    decreases |a|
  {
    if a != [] && b != [] && c != [] && a[0] == b[0] && b[0] == c[0] {
      TextLeTransitive(a[1..], b[1..], c[1..]);
    }
  }
}
