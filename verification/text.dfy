/**
 * The JavaScript string built-ins the shortcut hub relies on, as functions on
 * `seq<char>`: `toLowerCase` (ASCII folding only), `endsWith`, `includes`,
 * `split` on one character, `trim`, `Number.prototype.toString` on integers,
 * `padStart` and `slice(-k)`.
 */
module Text {

  // ---------------------------------------------------------------------
  // toLowerCase
  // ---------------------------------------------------------------------

  /** One character of `toLowerCase`, restricted to the ASCII letters. */
  function LowerChar(c: char): char {
    if 'A' <= c <= 'Z' then (c as int + 32) as char else c
  }

  function Lower(s: string): (r: string)
    ensures |r| == |s|
    ensures forall i :: 0 <= i < |s| ==> r[i] == LowerChar(s[i])
  {
    seq(|s|, i requires 0 <= i < |s| => LowerChar(s[i]))
  }

  /** Folding twice folds nothing more. */
  lemma LowerIdempotent(s: string)
    ensures Lower(Lower(s)) == Lower(s)
  {
  }

  /** Folding commutes with taking a slice. */
  lemma LowerSlice(s: string, i: nat, j: nat)
    requires i <= j <= |s|
    ensures Lower(s[i..j]) == Lower(s)[i..j]
  {
  }

  lemma LowerSnoc(t: string, c: char)
    ensures Lower(t + [c]) == Lower(t) + [LowerChar(c)]
  {
  }

  lemma LowerButLast(s: string)
    requires s != []
    ensures Lower(s) == Lower(s[..|s| - 1]) + [LowerChar(s[|s| - 1])]
  {
    assert s == s[..|s| - 1] + [s[|s| - 1]];
    LowerSnoc(s[..|s| - 1], s[|s| - 1]);
  }

  /** A character that is not a letter is in the folded string exactly when it is in the string. */
  lemma LowerKeepsNonLetter(s: string, c: char)
    requires !('A' <= c <= 'Z') && !('a' <= c <= 'z')
    ensures c in Lower(s) <==> c in s
  {
    if c in Lower(s) {
      var i :| 0 <= i < |s| && Lower(s)[i] == c;
      assert s[i] == c;
    }
    if c in s {
      var i :| 0 <= i < |s| && s[i] == c;
      assert Lower(s)[i] == c;
    }
  }

  // ---------------------------------------------------------------------
  // endsWith and includes
  // ---------------------------------------------------------------------

  predicate EndsWith(s: string, suffix: string) {
    |suffix| <= |s| && s[|s| - |suffix|..] == suffix
  }

  /** `t` occurs in `s` starting at index `i`. */
  predicate OccursAt(s: string, t: string, i: int) {
    0 <= i && i + |t| <= |s| && s[i..i + |t|] == t
  }

  lemma OccursAtTail(s: string, t: string, i: int)
    requires s != [] && 0 <= i
    ensures OccursAt(s[1..], t, i) <==> OccursAt(s, t, i + 1)
  {
    if 0 <= i && i + |t| <= |s| - 1 {
      assert s[1..][i..i + |t|] == s[i + 1..i + 1 + |t|];
    }
  }

  /**
   * `s.includes(t)`, computed by trying every start position from the left;
   * it holds exactly when `t` occurs in `s` at some index.
   */
  predicate Contains(s: string, t: string)
    ensures Contains(s, t) <==> exists i :: OccursAt(s, t, i)
    decreases |s|
  {
    if |t| > |s| then false
    else if s[..|t|] == t then assert OccursAt(s, t, 0); true
    else if s == [] then false
    else
      var found := Contains(s[1..], t);
      assert found ==> exists i :: OccursAt(s, t, i) by {
        if found {
          var i :| OccursAt(s[1..], t, i);
          OccursAtTail(s, t, i);
        }
      }
      assert (exists i :: OccursAt(s, t, i)) ==> found by {
        if exists i :: OccursAt(s, t, i) {
          var i :| OccursAt(s, t, i);
          assert i != 0;
          OccursAtTail(s, t, i - 1);
        }
      }
      found
  }

  /** The empty string is included in every string. */
  lemma ContainsEmpty(s: string)
    ensures Contains(s, "")
  {
    assert OccursAt(s, "", 0);
  }

  // ---------------------------------------------------------------------
  // split on one character, and its inverse join
  // ---------------------------------------------------------------------

  /** `s.split(sep)` for a one-character separator: the pieces between separators. */
  function Split(s: string, sep: char): (pieces: seq<string>)
    ensures |pieces| >= 1
    ensures forall k :: 0 <= k < |pieces| ==> sep !in pieces[k]
    decreases |s|
  {
    if s == [] then [[]]
    else
      var rest := Split(s[1..], sep);
      if s[0] == sep then [[]] + rest
      else [[s[0]] + rest[0]] + rest[1..]
  }

  /** A string without the separator is a single piece. */
  lemma {:induction false} SplitWithoutSeparator(s: string, sep: char)
    requires sep !in s
    ensures Split(s, sep) == [s]
    decreases |s|
  {
    if s != [] {
      SplitWithoutSeparator(s[1..], sep);
      assert [s[0]] + s[1..] == s;
    }
  }

  /** `pieces.join(sep)`. */
  function Join(pieces: seq<string>, sep: char): string
    decreases |pieces|
  {
    if |pieces| == 0 then ""
    else if |pieces| == 1 then pieces[0]
    else pieces[0] + [sep] + Join(pieces[1..], sep)
  }

  /** Joining the pieces of a split with the same separator gives back the string. */
  lemma {:induction false} SplitJoin(s: string, sep: char)
    ensures Join(Split(s, sep), sep) == s
    decreases |s|
  {
    if s != [] {
      var rest := Split(s[1..], sep);
      SplitJoin(s[1..], sep);
      if s[0] == sep {
        assert Split(s, sep) == [[]] + rest;
        assert Join([[]] + rest, sep) == [] + [sep] + Join(rest, sep);
      } else {
        var pieces := Split(s, sep);
        assert pieces == [[s[0]] + rest[0]] + rest[1..];
        if |rest| == 1 {
          assert Join(pieces, sep) == [s[0]] + rest[0];
        } else {
          assert Join(rest, sep) == rest[0] + [sep] + Join(rest[1..], sep);
          assert pieces[1..] == rest[1..];
          assert Join(pieces, sep) == [s[0]] + rest[0] + [sep] + Join(rest[1..], sep);
        }
      }
    }
  }

  /** `s` with every occurrence of `c` removed. */
  function Without(s: string, c: char): (r: string)
    ensures c !in r
    ensures |r| <= |s|
  {
    if s == [] then []
    else if s[0] == c then Without(s[1..], c)
    else [s[0]] + Without(s[1..], c)
  }

  /** All the pieces glued together, without separators. */
  function Concat(pieces: seq<string>): string {
    if pieces == [] then [] else pieces[0] + Concat(pieces[1..])
  }

  lemma {:induction false} ConcatAppend(a: seq<string>, b: seq<string>)
    ensures Concat(a + b) == Concat(a) + Concat(b)
  {
    if a != [] {
      assert (a + b)[1..] == a[1..] + b;
      ConcatAppend(a[1..], b);
      assert (a + b)[0] == a[0];
      assert Concat(a + b) == a[0] + Concat(a[1..] + b);
      assert Concat(a) == a[0] + Concat(a[1..]);
    } else {
      assert a + b == b;
    }
  }

  /** Splitting loses only the separators: the pieces hold every other character, in order. */
  lemma {:induction false} SplitKeepsOtherCharacters(s: string, sep: char)
    ensures Concat(Split(s, sep)) == Without(s, sep)
    decreases |s|
  {
    if s != [] {
      var rest := Split(s[1..], sep);
      SplitKeepsOtherCharacters(s[1..], sep);
      if s[0] == sep {
        assert Split(s, sep) == [[]] + rest;
        assert Concat([[]] + rest) == [] + Concat(rest);
      } else {
        assert Split(s, sep) == [[s[0]] + rest[0]] + rest[1..];
        assert rest == [rest[0]] + rest[1..];
        assert Concat(rest) == rest[0] + Concat(rest[1..]);
        assert Concat(Split(s, sep)) == [s[0]] + rest[0] + Concat(rest[1..]);
      }
    }
  }

  // ---------------------------------------------------------------------
  // trim
  // ---------------------------------------------------------------------

  /**
   * The characters `String.prototype.trim` removes: the ECMAScript WhiteSpace
   * characters (tab, vertical tab, form feed, space, no-break space, the byte
   * order mark and the Unicode space separators) and the LineTerminator
   * characters (line feed, carriage return, line and paragraph separators).
   */
  predicate IsWhitespace(c: char) {
    var n := c as int;
    n == 0x09 || n == 0x0A || n == 0x0B || n == 0x0C || n == 0x0D || n == 0x20 ||
    n == 0xA0 || n == 0x1680 || (0x2000 <= n <= 0x200A) || n == 0x2028 || n == 0x2029 ||
    n == 0x202F || n == 0x205F || n == 0x3000 || n == 0xFEFF
  }

  function TrimStart(s: string): string {
    if s != [] && IsWhitespace(s[0]) then TrimStart(s[1..]) else s
  }

  function TrimEnd(s: string): string {
    if s != [] && IsWhitespace(s[|s| - 1]) then TrimEnd(s[..|s| - 1]) else s
  }

  /** `s.trim()`. */
  function Trim(s: string): string {
    TrimEnd(TrimStart(s))
  }

  /** Dropping leading whitespace leaves a suffix that is empty or starts with a non-whitespace character. */
  lemma {:induction false} TrimStartShape(s: string)
    ensures |TrimStart(s)| <= |s| && TrimStart(s) == s[|s| - |TrimStart(s)|..]
    ensures TrimStart(s) == [] || !IsWhitespace(TrimStart(s)[0])
  {
    if s != [] && IsWhitespace(s[0]) {
      var r := TrimStart(s[1..]);
      TrimStartShape(s[1..]);
      assert s[1..][|s| - 1 - |r|..] == s[|s| - |r|..];
    }
  }

  /** Dropping trailing whitespace leaves a prefix that is empty or ends with a non-whitespace character. */
  lemma {:induction false} TrimEndShape(s: string)
    ensures |TrimEnd(s)| <= |s| && TrimEnd(s) == s[..|TrimEnd(s)|]
    ensures TrimEnd(s) == [] || !IsWhitespace(TrimEnd(s)[|TrimEnd(s)| - 1])
  {
    if s != [] && IsWhitespace(s[|s| - 1]) {
      TrimEndShape(s[..|s| - 1]);
    }
  }

  /** `trim()` gives a piece of the string that is empty or neither starts nor ends with whitespace. */
  lemma TrimShape(s: string)
    ensures |Trim(s)| <= |s|
    ensures Trim(s) == [] || (!IsWhitespace(Trim(s)[0]) && !IsWhitespace(Trim(s)[|Trim(s)| - 1]))
  {
    TrimStartShape(s);
    TrimEndShape(TrimStart(s));
  }

  predicate AllWhitespace(s: string) {
    forall i :: 0 <= i < |s| ==> IsWhitespace(s[i])
  }

  lemma {:induction false} TrimStartEmpty(s: string)
    ensures TrimStart(s) == [] <==> AllWhitespace(s)
    decreases |s|
  {
    if s != [] && IsWhitespace(s[0]) {
      TrimStartEmpty(s[1..]);
      assert forall i :: 1 <= i < |s| ==> s[i] == s[1..][i - 1];
    }
  }

  lemma {:induction false} TrimEndEmpty(s: string)
    ensures TrimEnd(s) == [] <==> AllWhitespace(s)
    decreases |s|
  {
    if s != [] && IsWhitespace(s[|s| - 1]) {
      TrimEndEmpty(s[..|s| - 1]);
    }
  }

  lemma {:induction false} TrimStartKeepsRest(s: string)
    ensures AllWhitespace(s) ==> AllWhitespace(TrimStart(s))
    ensures !AllWhitespace(s) ==> !AllWhitespace(TrimStart(s))
    decreases |s|
  {
    if s != [] && IsWhitespace(s[0]) {
      TrimStartKeepsRest(s[1..]);
      assert forall i :: 1 <= i < |s| ==> s[i] == s[1..][i - 1];
    }
  }

  /** A trimmed string is empty (falsy) exactly when the string is all whitespace. */
  lemma TrimEmptyIff(s: string)
    ensures Trim(s) == "" <==> AllWhitespace(s)
  {
    TrimEndEmpty(TrimStart(s));
    TrimStartKeepsRest(s);
  }

  // ---------------------------------------------------------------------
  // Number.prototype.toString on integers, and reading digits back
  // ---------------------------------------------------------------------

  predicate IsDigit(c: char) {
    '0' <= c <= '9'
  }

  predicate AllDigits(s: string) {
    forall i :: 0 <= i < |s| ==> IsDigit(s[i])
  }

  function DigitChar(d: int): (c: char)
    requires 0 <= d < 10
    ensures IsDigit(c)
  {
    ('0' as int + d) as char
  }

  /** Decimal digits of a natural number, without leading zeros. */
  function NatText(n: nat): (r: string)
    ensures 1 <= |r|
    ensures AllDigits(r)
    ensures |r| > 1 ==> r[0] != '0'
    decreases n
  {
    if n < 10 then [DigitChar(n)] else NatText(n / 10) + [DigitChar(n % 10)]
  }

  /** The string an integer-valued JavaScript number prints as. */
  function IntText(n: int): string {
    if n < 0 then "-" + NatText(-n) else NatText(n)
  }

  /** The value of a string of decimal digits. */
  function DigitsValue(s: string): nat
    requires AllDigits(s)
  {
    if s == [] then 0 else 10 * DigitsValue(s[..|s| - 1]) + (s[|s| - 1] as int - '0' as int)
  }

  /** Reading the digits of a natural number gives the number back. */
  lemma {:induction false} NatTextValue(n: nat)
    ensures DigitsValue(NatText(n)) == n
    decreases n
  {
    if n >= 10 {
      NatTextValue(n / 10);
      var r := NatText(n);
      assert r[..|r| - 1] == NatText(n / 10);
    }
  }

  lemma NatTextInjective(a: nat, b: nat)
    requires NatText(a) == NatText(b)
    ensures a == b
  {
    NatTextValue(a);
    NatTextValue(b);
  }

  /** Distinct integers print as distinct strings. */
  lemma IntTextInjective(a: int, b: int)
    requires IntText(a) == IntText(b)
    ensures a == b
  {
    if a < 0 && b < 0 {
      assert IntText(a)[1..] == NatText(-a);
      assert IntText(b)[1..] == NatText(-b);
      NatTextInjective(-a, -b);
    } else if a >= 0 && b >= 0 {
      NatTextInjective(a, b);
    }
  }

  /** A number's text starts with a minus sign or a digit. */
  lemma IntTextFirst(n: int)
    ensures IntText(n) != [] && (IntText(n)[0] == '-' || IsDigit(IntText(n)[0]))
  {
  }

  /** The last digit of a number's text is the number modulo ten. */
  lemma LastDigit(n: nat)
    ensures NatText(n)[|NatText(n)| - 1] == DigitChar(n % 10)
  {
  }

  // ---------------------------------------------------------------------
  // padStart and slice(-k)
  // ---------------------------------------------------------------------

  function Repeat(c: char, k: nat): (r: string)
    ensures |r| == k
    ensures forall i :: 0 <= i < k ==> r[i] == c
  {
    if k == 0 then [] else [c] + Repeat(c, k - 1)
  }

  /** `s.padStart(width, fill)` for a one-character fill: `s` behind enough fill characters to reach `width`. */
  function PadStart(s: string, width: nat, fill: char): string {
    if |s| >= width then s else Repeat(fill, width - |s|) + s
  }

  /** The padded text is at least `width` long, ends with `s`, and has only fill characters before it. */
  lemma PadStartShape(s: string, width: nat, fill: char)
    ensures |PadStart(s, width, fill)| == if |s| >= width then |s| else width
    ensures EndsWith(PadStart(s, width, fill), s)
    ensures forall i :: 0 <= i < |PadStart(s, width, fill)| - |s| ==> PadStart(s, width, fill)[i] == fill
  {
  }

  /**
   * `s.slice(-k)` for a positive `k`: the last `k` characters, or all of `s`
   * when it is shorter. (`slice(-0)` is `slice(0)`, the whole string, which
   * this does not cover.)
   */
  function SliceLast(s: string, k: nat): string
    requires k >= 1
  {
    if |s| >= k then s[|s| - k..] else s
  }

  /** The slice is the last `min(k, |s|)` characters of `s`. */
  lemma SliceLastShape(s: string, k: nat)
    requires k >= 1
    ensures |SliceLast(s, k)| == if |s| >= k then k else |s|
    ensures EndsWith(s, SliceLast(s, k))
  {
  }
}
