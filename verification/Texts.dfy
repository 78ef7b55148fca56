/**
 * The string operations that src/nmea.py uses: `split`, `rpartition`, `strip` and `int` on ASCII text,
 * together with the printing of decimal and two-digit hexadecimal numbers that they read back.
 */
module Texts {
  import opened ByteStrings

  // ----- splitting -----

  /** Position of the first `c`, or the length. */
  function Find(s: string, c: char): (i: nat)
    ensures i <= |s| && c !in s[..i]
    ensures i < |s| <==> c in s
    ensures i < |s| ==> s[i] == c
  {
    if s == [] then 0
    else if s[0] == c then 0
    else
      var i := Find(s[1..], c);
      assert s[..i + 1] == [s[0]] + s[1..][..i];
      i + 1
  }

  lemma {:induction false} FindAppend(a: string, c: char, b: string)
    requires c !in a
    ensures Find(a + [c] + b, c) == |a|
    decreases |a|
  {
    var s := a + [c] + b;
    if a != [] {
      assert s[1..] == a[1..] + [c] + b;
      FindAppend(a[1..], c, b);
    }
  }

  /** `s.split(c)`. */
  function Split(s: string, c: char): (parts: seq<string>)
    ensures parts != []
    decreases |s|
  {
    var i := Find(s, c);
    if i == |s| then [s] else [s[..i]] + Split(s[i + 1..], c)
  }

  /** `c.join(fields)`. */
  function Join(fields: seq<string>, c: char): string
    requires fields != []
  {
    if |fields| == 1 then fields[0] else fields[0] + [c] + Join(fields[1..], c)
  }

  /** The fields with `tail` added to the last one. */
  function Extended(fields: seq<string>, tail: string): seq<string>
    requires fields != []
  {
    fields[..|fields| - 1] + [fields[|fields| - 1] + tail]
  }

  lemma SplitFirst(a: string, c: char, rest: string)
    requires c !in a
    ensures Split(a + [c] + rest, c) == [a] + Split(rest, c)
  {
    var s := a + [c] + rest;
    FindAppend(a, c, rest);
    assert s[..|a|] == a && s[|a| + 1..] == rest;
  }

  lemma JoinStep(fields: seq<string>, c: char, tail: string)
    requires |fields| > 1
    ensures Join(fields, c) + tail == fields[0] + [c] + (Join(fields[1..], c) + tail)
    ensures Extended(fields, tail) == [fields[0]] + Extended(fields[1..], tail)
  {
  }

  /** Splitting what was joined gives the fields back. */
  lemma {:induction false} SplitJoin(fields: seq<string>, c: char, tail: string)
    requires fields != [] && c !in tail && forall f :: f in fields ==> c !in f
    ensures Split(Join(fields, c) + tail, c) == Extended(fields, tail)
    decreases |fields|
  {
    assert c !in fields[0];
    if |fields| == 1 {
      assert c !in fields[0] + tail;
      assert Extended(fields, tail) == [fields[0] + tail];
    } else {
      var rest := fields[1..];
      assert forall f :: f in rest ==> f in fields;
      JoinStep(fields, c, tail);
      SplitFirst(fields[0], c, Join(rest, c) + tail);
      SplitJoin(rest, c, tail);
    }
  }

  /** Position of the last `c`. */
  function FindLast(s: string, c: char): (i: nat)
    requires c in s
    ensures i < |s| && s[i] == c && c !in s[i + 1..]
  {
    var n := |s| - 1;
    if s[n] == c then n
    else
      var i := FindLast(s[..n], c);
      assert s[i + 1..] == s[..n][i + 1..] + [s[n]];
      i
  }

  /** The last `c` stands before a text without `c`. */
  lemma {:induction false} FindLastAppend(a: string, c: char, b: string)
    requires c !in b
    ensures FindLast(a + [c] + b, c) == |a|
    decreases |b|
  {
    var s := a + [c] + b;
    if b != [] {
      var init := b[..|b| - 1];
      assert s[|s| - 1] == b[|b| - 1] && b[|b| - 1] in b;
      assert s[..|s| - 1] == a + [c] + init;
      FindLastAppend(a, c, init);
    }
  }

  // ----- reading numbers -----

  /** What `int` skips around a number; `strip` takes away the four separators 28 to 31 as well. */
  predicate IsSpace(c: char, separators: bool)
  {
    c == ' ' || 9 <= c as int <= 13 || (separators && 28 <= c as int <= 31)
  }

  function Trim(s: string, separators: bool): string
    decreases |s|
  {
    if s == [] then s
    else if IsSpace(s[0], separators) then Trim(s[1..], separators)
    else if IsSpace(s[|s| - 1], separators) then Trim(s[..|s| - 1], separators)
    else s
  }

  /** Nothing is taken away exactly when there is no white space at either end. */
  lemma {:induction false} TrimKeptIff(s: string, separators: bool)
    ensures |Trim(s, separators)| <= |s|
    ensures Trim(s, separators) == s <==>
      s == [] || (!IsSpace(s[0], separators) && !IsSpace(s[|s| - 1], separators))
    decreases |s|
  {
    if s != [] {
      TrimKeptIff(s[1..], separators);
      TrimKeptIff(s[..|s| - 1], separators);
    }
  }

  lemma {:induction false} TrimFront(pre: string, s: string, separators: bool)
    requires forall c :: c in pre ==> IsSpace(c, separators)
    ensures Trim(pre + s, separators) == Trim(s, separators)
    decreases |pre|
  {
    if pre == [] {
      assert pre + s == s;
    } else {
      assert (pre + s)[0] == pre[0] && (pre + s)[1..] == pre[1..] + s;
      TrimFront(pre[1..], s, separators);
    }
  }

  lemma {:induction false} TrimBack(text: string, post: string, separators: bool)
    requires forall c :: c in post ==> IsSpace(c, separators)
    requires text == [] || (!IsSpace(text[0], separators) && !IsSpace(text[|text| - 1], separators))
    ensures Trim(text + post, separators) == text
    decreases |post|
  {
    if post == [] {
      assert text + post == text;
    } else if text == [] {
      assert text + post == post && text + post[1..] == post[1..];
      TrimBack(text, post[1..], separators);
    } else {
      var s, init := text + post, post[..|post| - 1];
      assert s[0] == text[0] && s[|s| - 1] == post[|post| - 1] && s[..|s| - 1] == text + init;
      TrimBack(text, init, separators);
    }
  }

  /** White space around a text that has none at its ends is taken away, and nothing else. */
  lemma TrimPadded(pre: string, text: string, post: string, separators: bool)
    requires forall c :: c in pre || c in post ==> IsSpace(c, separators)
    requires text == [] || (!IsSpace(text[0], separators) && !IsSpace(text[|text| - 1], separators))
    ensures Trim(pre + text + post, separators) == text
  {
    assert pre + text + post == pre + (text + post);
    TrimFront(pre, text + post, separators);
    TrimBack(text, post, separators);
  }

  lemma TrimPlain(s: string, separators: bool)
    requires forall c :: c in s ==> !IsSpace(c, true)
    ensures Trim(s, separators) == s
  {
    if s != [] {
      assert s[0] in s && s[|s| - 1] in s;
    }
  }

  /** `s.strip()`. */
  function Strip(s: string): string
  {
    Trim(s, true)
  }

  /** The value of a digit in the given base. */
  function Digit(c: char, base: nat): Option<nat>
  {
    var d: int := if '0' <= c <= '9' then c as int - '0' as int
                  else if 'a' <= c <= 'f' then c as int - 'a' as int + 10
                  else if 'A' <= c <= 'F' then c as int - 'A' as int + 10
                  else -1;
    if 0 <= d < base then Some(d) else None
  }

  /** Digits, single underscores between them; `open` when an underscore may come next. */
  function ReadDigits(s: string, base: nat, acc: nat, open: bool): Option<nat>
    decreases |s|
  {
    if s == [] then (if open then Some(acc) else None)
    else if s[0] == '_' then (if open then ReadDigits(s[1..], base, acc, false) else None)
    else
      var d := Digit(s[0], base);
      if d == None then None else ReadDigits(s[1..], base, acc * base + d.value, true)
  }

  /** The digits of a number; base 16 admits the prefix `0x`. */
  function ReadNat(s: string, base: nat): Option<nat>
  {
    if base == 16 && |s| > 2 && s[0] == '0' && (s[1] == 'x' || s[1] == 'X') then ReadDigits(s[2..], base, 0, true)
    else ReadDigits(s, base, 0, false)
  }

  /** `int(s, base)` for base 10 and 16; None stands for ValueError. */
  function ReadInt(s: string, base: nat): Option<int>
  {
    var t := Trim(s, false);
    if t == [] then None
    else
      var signed := t[0] == '-' || t[0] == '+';
      var n := ReadNat(if signed then t[1..] else t, base);
      if n == None then None else Some(if t[0] == '-' then 0 - n.value else n.value)
  }

  lemma {:induction false} NotDigits(s: string, c: char, acc: nat, open: bool)
    requires c in s && c != '_' && Digit(c, 10) == None
    ensures ReadDigits(s, 10, acc, open) == None
    decreases |s|
  {
    if s[0] == '_' {
      if open {
        NotDigits(s[1..], c, acc, false);
      }
    } else if Digit(s[0], 10).Some? {
      NotDigits(s[1..], c, acc * 10 + Digit(s[0], 10).value, true);
    }
  }

  lemma {:induction false} TrimKeepsText(s: string, c: char, separators: bool)
    requires c in s && !IsSpace(c, separators)
    ensures c in Trim(s, separators)
    decreases |s|
  {
    if IsSpace(s[0], separators) {
      TrimKeepsText(s[1..], c, separators);
    } else if IsSpace(s[|s| - 1], separators) {
      assert s == s[..|s| - 1] + [s[|s| - 1]];
      TrimKeepsText(s[..|s| - 1], c, separators);
    }
  }

  /** A text with a character that is no digit, sign, underscore or white space is not a number. */
  lemma JunkIsNoNumber(s: string, c: char)
    requires c in s && Digit(c, 10) == None && c != '_' && c != '-' && c != '+' && !IsSpace(c, false)
    ensures ReadInt(s, 10) == None
  {
    TrimKeepsText(s, c, false);
    var t := Trim(s, false);
    var digits := if t[0] == '-' || t[0] == '+' then t[1..] else t;
    assert t == [t[0]] + t[1..];
    NotDigits(digits, c, 0, false);
  }

  // ----- printing numbers -----

  function DigitChar(d: nat): (c: char)
    requires d < 16
    ensures Digit(c, 16) == Some(d) && (d < 10 ==> Digit(c, 10) == Some(d))
    ensures Plain(c)
  {
    if d < 10 then '0' + d as char else 'A' + (d - 10) as char
  }

  /** ASCII, and neither white space nor a separator, sign or prefix of the formats read here. */
  predicate Plain(c: char)
  {
    '0' <= c <= '9' || 'A' <= c <= 'F'
  }

  function PrintNat(n: nat): (s: string)
    ensures s != [] && forall c :: c in s ==> '0' <= c <= '9'
  {
    if n < 10 then [DigitChar(n)] else PrintNat(n / 10) + [DigitChar(n % 10)]
  }

  function PrintInt(n: int): (s: string)
    ensures s != [] && forall c :: c in s ==> '0' <= c <= '9' || c == '-'
  {
    if n < 0 then ['-'] + PrintNat(-n) else PrintNat(n)
  }

  /** Two hexadecimal digits. */
  function PrintHex(n: nat): (s: string)
    requires n < 256
    ensures |s| == 2 && forall c :: c in s ==> Plain(c)
  {
    [DigitChar(n / 16), DigitChar(n % 16)]
  }

  lemma {:induction false} ReadDigitsAppend(s: string, c: char, base: nat, acc: nat, open: bool)
    requires Digit(c, base).Some? && (s != [] || open)
    requires forall x :: x in s ==> Digit(x, base).Some?
    ensures var v := ReadDigits(s, base, acc, open);
      v.Some? && ReadDigits(s + [c], base, acc, open) == Some(v.value * base + Digit(c, base).value)
    decreases |s|
  {
    if s == [] {
      assert (s + [c])[1..] == [] && (s + [c])[0] == c;
    } else {
      assert (s + [c])[1..] == s[1..] + [c] && (s + [c])[0] == s[0];
      assert s[0] in s && s[0] != '_';
      ReadDigitsAppend(s[1..], c, base, acc * base + Digit(s[0], base).value, true);
    }
  }

  lemma {:induction false} ReadPrintNat(n: nat)
    ensures ReadDigits(PrintNat(n), 10, 0, false) == Some(n)
  {
    if n < 10 {
      assert PrintNat(n)[1..] == [] && PrintNat(n)[0] == DigitChar(n);
    } else {
      ReadPrintNat(n / 10);
      ReadDigitsAppend(PrintNat(n / 10), DigitChar(n % 10), 10, 0, false);
    }
  }

  /** A printed integer is read back. */
  lemma ReadPrintInt(n: int)
    ensures ReadInt(PrintInt(n), 10) == Some(n)
  {
    var s := PrintInt(n);
    TrimPlain(s, false);
    assert s[0] in s;
    if n < 0 {
      assert s[1..] == PrintNat(-n);
      ReadPrintNat(-n);
    } else {
      assert s == PrintNat(n) && s[0] in PrintNat(n);
      ReadPrintNat(n);
    }
  }

  lemma ReadTwoDigits(hi: char, lo: char, n: nat)
    requires n < 256 && Digit(hi, 16) == Some(n / 16) && Digit(lo, 16) == Some(n % 16)
    ensures ReadDigits([hi, lo], 16, 0, false) == Some(n) && ReadDigits([hi, lo], 16, 0, true) == Some(n)
  {
    assert [hi, lo][1..] == [lo] && [lo][1..] == [];
    assert ReadDigits([lo], 16, n / 16, true) == Some(n / 16 * 16 + n % 16);
  }

  /** Two printed hexadecimal digits are read back. */
  lemma ReadPrintHex(n: nat)
    requires n < 256
    ensures ReadInt(PrintHex(n), 16) == Some(n)
  {
    var s := PrintHex(n);
    TrimPlain(s, false);
    assert s[0] in s && s[1] in s;
    ReadTwoDigits(s[0], s[1], n);
  }

  /** Two hexadecimal digits in lower case. */
  function PrintLowerHex(n: nat): (s: string)
    requires n < 256
    ensures |s| == 2
  {
    [LowerChar(n / 16), LowerChar(n % 16)]
  }

  function LowerChar(d: nat): (c: char)
    requires d < 16
    ensures Digit(c, 16) == Some(d) && !IsSpace(c, true) && c != '-' && c != '+' && c != 'x' && c != 'X'
  {
    if d < 10 then '0' + d as char else 'a' + (d - 10) as char
  }

  /** Hexadecimal digits are read in either case, and behind the prefix `0x`. */
  lemma ReadHexForms(n: nat)
    requires n < 256
    ensures ReadInt(PrintLowerHex(n), 16) == Some(n)
    ensures ReadInt("0x" + PrintHex(n), 16) == Some(n)
  {
    var lower, upper := PrintLowerHex(n), PrintHex(n);
    ReadTwoDigits(lower[0], lower[1], n);
    assert Trim(lower, false) == lower;
    ReadTwoDigits(upper[0], upper[1], n);
    var s := "0x" + upper;
    assert s[|s| - 1] == upper[1] && upper[1] in upper;
    assert Trim(s, false) == s && s[2..] == upper;
  }

  lemma PaddedReads(pre: string, t: string, post: string)
    requires forall c :: c in pre || c in post ==> IsSpace(c, false)
    requires t != [] && !IsSpace(t[0], false) && !IsSpace(t[|t| - 1], false)
    ensures ReadInt(pre + t + post, 10) ==
      var n := ReadNat(if t[0] == '-' || t[0] == '+' then t[1..] else t, 10);
      if n == None then None else Some(if t[0] == '-' then 0 - n.value else n.value)
  {
    TrimPadded(pre, t, post, false);
  }

  /** White space around a number is ignored. */
  lemma ReadPaddedInt(pre: string, n: int, post: string)
    requires n >= 0 && forall c :: c in pre || c in post ==> IsSpace(c, false)
    ensures ReadInt(pre + PrintNat(n) + post, 10) == Some(n)
  {
    var digits := PrintNat(n);
    ReadPrintNat(n);
    assert digits[0] in digits && digits[|digits| - 1] in digits;
    PaddedReads(pre, digits, post);
  }

  /** And a sign before it is read. */
  lemma ReadSignedInt(pre: string, sign: char, n: int, post: string)
    requires n >= 0 && (sign == '+' || sign == '-') && forall c :: c in pre || c in post ==> IsSpace(c, false)
    ensures ReadInt(pre + ([sign] + PrintNat(n)) + post, 10) == Some(if sign == '-' then -n else n)
  {
    var t := [sign] + PrintNat(n);
    ReadPrintNat(n);
    assert t[|t| - 1] == PrintNat(n)[|PrintNat(n)| - 1] && t[|t| - 1] in PrintNat(n);
    assert t[1..] == PrintNat(n);
    PaddedReads(pre, t, post);
  }

  /** A single underscore between two digits is ignored. */
  lemma {:induction false} UnderscoreIgnored(a: string, b: string, base: nat, acc: nat, open: bool)
    requires b != [] && Digit(b[0], base).Some? && (a != [] || open)
    requires forall c :: c in a ==> Digit(c, base).Some?
    ensures ReadDigits(a + ['_'] + b, base, acc, open) == ReadDigits(a + b, base, acc, open)
    decreases |a|
  {
    if a == [] {
      assert a + ['_'] + b == ['_'] + b && (['_'] + b)[1..] == b && a + b == b;
    } else {
      assert a[0] in a && a[0] != '_';
      assert (a + ['_'] + b)[1..] == a[1..] + ['_'] + b && (a + b)[1..] == a[1..] + b;
      UnderscoreIgnored(a[1..], b, base, acc * base + Digit(a[0], base).value, true);
    }
  }
}
