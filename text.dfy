/** String operations of Python's `str` that the source relies on, restricted
    to what the model needs: ASCII case mapping, `strip()`, `replace()` of a
    single character or of a substring, and `str()` of a non-negative integer. */
module Text {
  import opened Seqs

  /** The ASCII characters Python's `str.isspace()` accepts. */
  predicate IsSpace(c: char) {
    // space, and the control characters 9 to 13 and 28 to 31
    c == ' ' || (9 <= c as int <= 13) || (28 <= c as int <= 31)
  }

  predicate IsUpperAscii(c: char) { 'A' <= c <= 'Z' }

  predicate IsLowerAscii(c: char) { 'a' <= c <= 'z' }

  /** An ASCII letter: the only "cased" characters of this model. */
  predicate IsCased(c: char) { IsUpperAscii(c) || IsLowerAscii(c) }

  function LowerChar(c: char): char {
    if IsUpperAscii(c) then (c as int + 32) as char else c
  }

  function UpperChar(c: char): char {
    if IsLowerAscii(c) then (c as int - 32) as char else c
  }

  /** `s.lower()` */
  function Lower(s: string): string {
    seq(|s|, i requires 0 <= i < |s| => LowerChar(s[i]))
  }

  /** `s.upper()` */
  function Upper(s: string): string {
    seq(|s|, i requires 0 <= i < |s| => UpperChar(s[i]))
  }

  /** `s.title()`: a cased character is upper-cased when the character before
      it is not cased, and lower-cased otherwise. */
  function TitleFrom(s: string, previousCased: bool): string
    decreases |s|
  {
    if s == [] then []
    else
      [if previousCased then LowerChar(s[0]) else UpperChar(s[0])]
      + TitleFrom(s[1..], IsCased(s[0]))
  }

  function Title(s: string): string { TitleFrom(s, false) }

  function TrimLeft(s: string): string
    decreases |s|
  {
    if s != [] && IsSpace(s[0]) then TrimLeft(s[1..]) else s
  }

  function TrimRight(s: string): string
    decreases |s|
  {
    if s != [] && IsSpace(s[|s| - 1]) then TrimRight(s[..|s| - 1]) else s
  }

  /** `s.strip()` */
  function Strip(s: string): string { TrimRight(TrimLeft(s)) }

  /** `s.replace(a, b)` for single characters `a` and `b`. */
  function ReplaceChar(s: string, a: char, b: char): string {
    seq(|s|, i requires 0 <= i < |s| => if s[i] == a then b else s[i])
  }

  /** `s` without every character of `drop`, the rest in order. */
  function Keep(s: string, drop: string): string
    decreases |s|
  {
    if s == [] then []
    else (if s[0] in drop then [] else [s[0]]) + Keep(s[1..], drop)
  }

  /** `s.replace(pat, rep)`: leftmost, non-overlapping occurrences, in one pass. */
  function ReplaceAll(s: string, pat: string, rep: string): string
    requires pat != []
    decreases |s|
  {
    if |s| < |pat| then s
    else if s[..|pat|] == pat then rep + ReplaceAll(s[|pat|..], pat, rep)
    else [s[0]] + ReplaceAll(s[1..], pat, rep)
  }

  /** `pat` occurs in `s` starting at index `i`. */
  predicate OccursAt(pat: string, s: string, i: int) {
    0 <= i && i + |pat| <= |s| && s[i..i + |pat|] == pat
  }

  /** `pat in s` */
  ghost predicate Occurs(pat: string, s: string) {
    exists i :: OccursAt(pat, s, i)
  }

  function DigitChar(d: nat): char
    requires d < 10
  {
    "0123456789"[d]
  }

  /** String comparison `a <= b`: lexicographic on character codes, as SQLite
      orders TEXT columns under its default collation for ASCII text. */
  predicate LexLe(a: string, b: string)
    decreases |a|
  {
    a == [] || (b != [] && (a[0] < b[0] || (a[0] == b[0] && LexLe(a[1..], b[1..]))))
  }

  predicate IsDigit(c: char) { 48 <= c as int <= 57 }

  /** `str(n)` for `n >= 0`: decimal digits without leading zeros. */
  function NatToString(n: nat): (r: string)
    ensures |r| >= 1
    ensures forall i :: 0 <= i < |r| ==> IsDigit(r[i])
    ensures n >= 10 ==> |r| >= 2
    decreases n
  {
    if n < 10 then [DigitChar(n)] else NatToString(n / 10) + [DigitChar(n % 10)]
  }

  /** The value of a string of decimal digits. */
  function DecimalValue(s: string): nat
    requires forall i :: 0 <= i < |s| ==> IsDigit(s[i])
    decreases |s|
  {
    if s == [] then 0
    else
      assert IsDigit(s[|s| - 1]);
      DecimalValue(s[..|s| - 1]) * 10 + (s[|s| - 1] as int - 48)
  }

  /** `str(n)` reads back as `n`, and has no leading zero. */
  lemma {:induction false} NatToStringRoundTrip(n: nat)
    ensures DecimalValue(NatToString(n)) == n
    ensures NatToString(n)[0] == '0' ==> n == 0
    decreases n
  {
    DigitCharValue(n % 10);
    if n >= 10 {
      NatToStringRoundTrip(n / 10);
      var s, init := NatToString(n), NatToString(n / 10);
      assert s == init + [DigitChar(n % 10)];
      assert s[..|s| - 1] == init;
      assert s[|s| - 1] as int - 48 == n % 10;
      assert DecimalValue(s) == DecimalValue(init) * 10 + n % 10;
      assert s[0] == init[0];
    }
  }

  /** A digit character's code is 48 above the digit. */
  lemma DigitCharValue(d: nat)
    requires d < 10
    ensures DigitChar(d) as int - 48 == d
  {
  }

  /** Python's `lower()` of a stripped answer equals `"y"` exactly for `"y"` and `"Y"`. */
  lemma LowerIsY(s: string)
    ensures Lower(s) == "y" <==> (s == "y" || s == "Y")
  {
    if Lower(s) == "y" {
      assert |s| == 1;
      assert Lower(s)[0] == LowerChar(s[0]) == 'y';
      assert s == [s[0]];
    }
  }

  /** Removing characters keeps the order of the others and removes all of them. */
  lemma {:induction false} KeepFacts(s: string, drop: string)
    ensures |Keep(s, drop)| <= |s|
    ensures forall c :: c in Keep(s, drop) <==> c in s && c !in drop
    ensures forall c :: c in drop ==> c !in Keep(s, drop)
    decreases |s|
  {
    if s != [] {
      KeepFacts(s[1..], drop);
      assert s == [s[0]] + s[1..];
    }
  }

  /** Removal is idempotent: nothing is left to remove a second time. */
  lemma {:induction false} KeepIdempotent(s: string, drop: string)
    ensures Keep(Keep(s, drop), drop) == Keep(s, drop)
    decreases |s|
  {
    if s != [] {
      KeepIdempotent(s[1..], drop);
      KeepAppend(if s[0] in drop then [] else [s[0]], Keep(s[1..], drop), drop);
    }
  }

  lemma {:induction false} KeepAppend(a: string, b: string, drop: string)
    ensures Keep(a + b, drop) == Keep(a, drop) + Keep(b, drop)
    decreases |a|
  {
    if a != [] {
      assert (a + b)[0] == a[0];
      assert (a + b)[1..] == a[1..] + b;
      KeepAppend(a[1..], b, drop);
      var h := if a[0] in drop then [] else [a[0]];
      assert Keep(a + b, drop) == h + Keep(a[1..] + b, drop);
      assert Keep(a, drop) == h + Keep(a[1..], drop);
    } else {
      assert a + b == b;
    }
  }

  /** A string none of whose characters is dropped comes back unchanged. */
  lemma {:induction false} KeepNoop(s: string, drop: string)
    requires forall c :: c in s ==> c !in drop
    ensures Keep(s, drop) == s
    decreases |s|
  {
    if s != [] {
      assert s[0] in s;
      forall c | c in s[1..] ensures c !in drop { assert c in s; }
      KeepNoop(s[1..], drop);
      assert s == [s[0]] + s[1..];
    }
  }

  /** A string with no occurrence of the pattern is not changed by `replace`. */
  lemma {:induction false} ReplaceAllAbsent(s: string, pat: string, rep: string)
    requires pat != []
    requires !Occurs(pat, s)
    ensures ReplaceAll(s, pat, rep) == s
    decreases |s|
  {
    if |s| >= |pat| {
      assert s[0..|pat|] == s[..|pat|];
      assert !OccursAt(pat, s, 0);
      assert !Occurs(pat, s[1..]) by {
        forall i | OccursAt(pat, s[1..], i) ensures false {
          assert s[1..][i..i + |pat|] == s[i + 1..i + 1 + |pat|];
          assert OccursAt(pat, s, i + 1);
        }
      }
      ReplaceAllAbsent(s[1..], pat, rep);
      assert s == [s[0]] + s[1..];
    }
  }

  /** A string made of the pattern alone becomes the replacement. */
  lemma ReplaceAllWhole(pat: string, rep: string)
    requires pat != []
    ensures ReplaceAll(pat, pat, rep) == rep
  {
    assert pat[..|pat|] == pat;
    assert pat[|pat|..] == [];
  }

  /** `s.replace(c, '')` for a single character removes exactly that character. */
  lemma {:induction false} ReplaceCharByNothing(s: string, c: char)
    ensures ReplaceAll(s, [c], "") == Keep(s, [c])
    decreases |s|
  {
    if |s| >= 1 {
      ReplaceCharByNothing(s[1..], c);
      assert s[..1] == [s[0]];
      assert s[1..][..0] == [];
    }
  }

  /** Removing the characters of `a` and then those of `b` removes those of `a + b`. */
  lemma {:induction false} KeepCompose(s: string, a: string, b: string)
    ensures Keep(Keep(s, a), b) == Keep(s, a + b)
    decreases |s|
  {
    if s != [] {
      KeepCompose(s[1..], a, b);
      assert s[0] in a + b <==> s[0] in a || s[0] in b;
      if s[0] in a {
        assert Keep(s, a) == Keep(s[1..], a);
      } else {
        assert Keep(s, a) == [s[0]] + Keep(s[1..], a);
        KeepAppend([s[0]], Keep(s[1..], a), b);
        assert [s[0]][1..] == [];
        assert Keep([s[0]], b) == (if s[0] in b then [] else [s[0]]) + Keep([], b);
      }
    }
  }

  /** What is kept is an order-preserving subsequence of the original. */
  lemma {:induction false} KeepSubseq(s: string, drop: string)
    ensures IsSubseq(Keep(s, drop), s)
    decreases |s|
  {
    if s != [] {
      KeepSubseq(s[1..], drop);
      var rest := Keep(s[1..], drop);
      if s[0] in drop {
        assert Keep(s, drop) == [] + rest == rest;
        SubseqSkip(s[0], rest, s[1..]);
        assert [s[0]] + s[1..] == s;
      } else {
        assert Keep(s, drop) == [s[0]] + rest;
        assert ([s[0]] + rest)[0] == s[0] && ([s[0]] + rest)[1..] == rest;
      }
    }
  }

  /** Every character is 7-bit: what `open(..., encoding='ascii')` can write. */
  predicate IsAscii(s: string) {
    forall i :: 0 <= i < |s| ==> s[i] as int < 128
  }

  lemma IsAsciiAppend(a: string, b: string)
    ensures IsAscii(a + b) <==> IsAscii(a) && IsAscii(b)
  {
    if IsAscii(a + b) {
      forall i | 0 <= i < |a| ensures a[i] as int < 128 { assert a[i] == (a + b)[i]; }
      forall i | 0 <= i < |b| ensures b[i] as int < 128 { assert b[i] == (a + b)[|a| + i]; }
    }
  }

  /** Exchanging one 7-bit character for another keeps a string 7-bit, and only then. */
  lemma ReplaceCharAscii(s: string, a: char, b: char)
    requires a as int < 128 && b as int < 128
    ensures IsAscii(ReplaceChar(s, a, b)) <==> IsAscii(s)
  {
    if IsAscii(ReplaceChar(s, a, b)) {
      forall i | 0 <= i < |s| ensures s[i] as int < 128 {
        assert ReplaceChar(s, a, b)[i] == (if s[i] == a then b else s[i]);
      }
    }
  }
}
