/** String primitives that the Python and JavaScript sources take from their
    standard libraries: str.strip, str.split, str.find, str.count, str.join,
    str(int), str.zfill and str.replace, on strings as sequences of
    characters. */
module Text {

  /** Python's str.isspace for a single character. */
  predicate IsSpace(c: char)
  {
    || c == ' '
    || ('\t' <= c <= '\r')
    || ('\U{1c}' <= c <= '\U{1f}')
    || c == '\U{85}' || c == '\U{a0}' || c == '\U{1680}'
    || ('\U{2000}' <= c <= '\U{200a}')
    || c == '\U{2028}' || c == '\U{2029}' || c == '\U{202f}' || c == '\U{205f}' || c == '\U{3000}'
  }

  predicate AllSpace(s: string)
  {
    forall i :: 0 <= i < |s| ==> IsSpace(s[i])
  }

  /** str.lstrip(): drops the leading whitespace, keeps the rest as a suffix. */
  function LStrip(s: string): (r: string)
    ensures |r| <= |s| && r == s[|s| - |r|..]
    ensures r == [] || !IsSpace(r[0])
    ensures AllSpace(s[..|s| - |r|])
    decreases |s|
  {
    if |s| > 0 && IsSpace(s[0]) then LStrip(s[1..]) else s
  }

  /** str.rstrip(): drops the trailing whitespace, keeps the rest as a prefix. */
  function RStrip(s: string): (r: string)
    ensures |r| <= |s| && r == s[..|r|]
    ensures r == [] || !IsSpace(r[|r| - 1])
    ensures AllSpace(s[|r|..])
    decreases |s|
  {
    if |s| > 0 && IsSpace(s[|s| - 1]) then
      var t := s[..|s| - 1];
      var r := RStrip(t);
      assert t[..|r|] == s[..|r|];
      assert s[|r|..] == t[|r|..] + [s[|s| - 1]];
      r
    else s
  }

  /** str.strip() */
  function Strip(s: string): string
  {
    RStrip(LStrip(s))
  }

  /** `s.strip() == ''` in the sources. */
  predicate IsBlank(s: string)
  {
    Strip(s) == ""
  }

  /** A string strips to nothing exactly when every character is whitespace,
      and otherwise the stripped text is a slice of it with no whitespace at
      either end. */
  lemma StripSpec(s: string)
    ensures IsBlank(s) <==> AllSpace(s)
    ensures exists i, j :: 0 <= i <= j <= |s| && Strip(s) == s[i..j]
    ensures Strip(s) == [] || (!IsSpace(Strip(s)[0]) && !IsSpace(Strip(s)[|Strip(s)| - 1]))
  {
    var i := StripSlice(s);
    StripEnds(s);
    if Strip(s) == [] {
      BlankIsSpace(s);
    } else {
      assert !IsSpace(s[i]);
    }
  }

  /** The stripped text starts where the left strip stopped. */
  lemma StripSlice(s: string) returns (i: nat)
    ensures i <= |s| && i + |Strip(s)| <= |s| && Strip(s) == s[i..i + |Strip(s)|]
  {
    var l := LStrip(s);
    var r := RStrip(l);
    i := |s| - |l|;
    assert l == s[i..];
    assert r == l[..|r|];
  }

  lemma StripEnds(s: string)
    ensures Strip(s) == [] || (!IsSpace(Strip(s)[0]) && !IsSpace(Strip(s)[|Strip(s)| - 1]))
  {
    var l := LStrip(s);
    var r := RStrip(l);
    if r != [] {
      assert r[0] == l[0];
    }
  }

  lemma BlankIsSpace(s: string)
    requires Strip(s) == []
    ensures AllSpace(s)
  {
    var l := LStrip(s);
    assert AllSpace(l[0..]);
    assert l[0..] == l;
    assert s == s[..|s| - |l|] + l;
  }

  /** A trailing blank after text that has no whitespace at either end is
      all that strip() removes. */
  lemma StripOuterSpace(s: string)
    requires s != [] && !IsSpace(s[0]) && !IsSpace(s[|s| - 1])
    ensures Strip(s + " ") == s
  {
    var t := s + " ";
    assert LStrip(t) == t;
    assert t[..|t| - 1] == s;
    assert RStrip(t) == RStrip(s);
  }

  /** str.split(sep) for a one-character separator: never empty; an empty
      string gives one empty part. */
  function Split(s: string, sep: char): (parts: seq<string>)
    ensures |parts| >= 1
    ensures forall k :: 0 <= k < |parts| ==> sep !in parts[k]
    ensures sep !in s ==> parts == [s]
    decreases |s|
  {
    if s == [] then [""]
    else
      var rest := Split(s[1..], sep);
      assert s == [s[0]] + s[1..];
      if s[0] == sep then [""] + rest
      else [[s[0]] + rest[0]] + rest[1..]
  }

  /** sep.join(parts) */
  function Join(sep: string, parts: seq<string>): string
  {
    if |parts| == 0 then ""
    else if |parts| == 1 then parts[0]
    else parts[0] + sep + Join(sep, parts[1..])
  }

  function Last(parts: seq<string>): string
    requires |parts| >= 1
  {
    parts[|parts| - 1]
  }

  /** Joining the parts of a split with the separator gives back the string. */
  lemma {:induction false} JoinSplit(s: string, sep: char)
    ensures Join([sep], Split(s, sep)) == s
    decreases |s|
  {
    if s != [] {
      var rest := Split(s[1..], sep);
      JoinSplit(s[1..], sep);
      if s[0] == sep {
        assert Split(s, sep) == [""] + rest;
        assert Join([sep], [""] + rest) == "" + [sep] + Join([sep], rest);
      } else {
        var parts := [[s[0]] + rest[0]] + rest[1..];
        assert Split(s, sep) == parts;
        if |rest| == 1 {
          assert Join([sep], parts) == [s[0]] + rest[0];
        } else {
          assert parts[1..] == rest[1..];
          assert Join([sep], rest) == rest[0] + [sep] + Join([sep], rest[1..]);
        }
      }
    }
  }

  /** A separator-free head is split off as the first part. */
  lemma {:induction false} SplitPrefix(a: string, sep: char, b: string)
    requires sep !in a
    ensures Split(a + [sep] + b, sep) == [a] + Split(b, sep)
    decreases |a|
  {
    if a == [] {
      assert a + [sep] + b == [sep] + b;
      assert ([sep] + b)[1..] == b;
    } else {
      var s := a + [sep] + b;
      assert s[0] == a[0] && s[1..] == a[1..] + [sep] + b;
      SplitPrefix(a[1..], sep, b);
      assert [a[0]] + a[1..] == a;
    }
  }

  /** Splitting the join of separator-free parts gives the parts back. */
  lemma {:induction false} SplitJoin(parts: seq<string>, sep: char)
    requires |parts| >= 1
    requires forall k :: 0 <= k < |parts| ==> sep !in parts[k]
    ensures Split(Join([sep], parts), sep) == parts
    decreases |parts|
  {
    if |parts| > 1 {
      SplitJoin(parts[1..], sep);
      assert Join([sep], parts) == parts[0] + [sep] + Join([sep], parts[1..]);
      SplitPrefix(parts[0], sep, Join([sep], parts[1..]));
      assert [parts[0]] + parts[1..] == parts;
    }
  }

  /** The last part of a split is the tail of the string after the last
      separator, or the whole string when there is none. */
  lemma {:induction false} LastPart(s: string, sep: char) returns (k: nat)
    ensures k <= |s| && Last(Split(s, sep)) == s[k..]
    ensures k == 0 || s[k - 1] == sep
    decreases |s|
  {
    if s == [] {
      k := 0;
    } else {
      var rest := Split(s[1..], sep);
      var k' := LastPart(s[1..], sep);
      if s[0] == sep {
        k := k' + 1;
        assert Split(s, sep) == [""] + rest;
        assert s[1..][k'..] == s[k..];
      } else if k' == 0 {
        assert sep !in s[1..] by {
          assert Last(rest) == s[1..];
        }
        assert Split(s, sep) == [[s[0]] + s[1..]];
        k := 0;
      } else {
        k := k' + 1;
        assert sep in s[1..] by {
          assert s[1..][k' - 1] == sep;
        }
        if |rest| == 1 {
          JoinSplit(s[1..], sep);
          assert false;
        }
        assert Last(Split(s, sep)) == Last(rest);
        assert s[1..][k'..] == s[k..];
      }
    }
  }

  /** `sub` occurs in `s` at index `i`. */
  predicate OccursAt(s: string, sub: string, i: int)
  {
    0 <= i && i + |sub| <= |s| && s[i..i + |sub|] == sub
  }

  /** str.find(sub, i): the lowest index from `i` on where `sub` occurs, or -1. */
  function FindFrom(s: string, sub: string, i: nat): (r: int)
    requires i <= |s|
    ensures r == -1 || (i <= r <= |s| && OccursAt(s, sub, r))
    ensures r == -1 ==> forall k :: i <= k <= |s| ==> !OccursAt(s, sub, k)
    ensures r >= 0 ==> forall k :: i <= k < r ==> !OccursAt(s, sub, k)
    decreases |s| - i
  {
    if OccursAt(s, sub, i) then i
    else if i == |s| then -1
    else FindFrom(s, sub, i + 1)
  }

  /** str.find(sub) */
  function Find(s: string, sub: string): int
  {
    FindFrom(s, sub, 0)
  }

  /** str.count(c) for a one-character `c`. */
  function Count(s: string, c: char): nat
  {
    if s == [] then 0 else (if s[0] == c then 1 else 0) + Count(s[1..], c)
  }

  /** A prefix never holds more occurrences than the whole string. */
  lemma {:induction false} CountPrefix(s: string, c: char, k: nat)
    requires k <= |s|
    ensures Count(s[..k], c) <= Count(s, c)
  {
    if k > 0 {
      assert s[..k][1..] == s[1..][..k - 1];
      CountPrefix(s[1..], c, k - 1);
    }
  }

  function DigitChar(d: nat): char
    requires d < 10
  {
    "0123456789"[d]
  }

  predicate IsDigit(c: char)
  {
    '0' <= c <= '9'
  }

  /** str(n) for a non-negative int: its decimal digits, no leading zero. */
  function NatToString(n: nat): (r: string)
    ensures |r| >= 1 && forall k :: 0 <= k < |r| ==> IsDigit(r[k])
    ensures r[0] == '0' ==> n == 0
  {
    if n < 10 then [DigitChar(n)] else NatToString(n / 10) + [DigitChar(n % 10)]
  }

  /** Numbers below 100 have one or two digits. */
  lemma NatToStringShort(n: nat)
    requires n < 100
    ensures |NatToString(n)| == if n < 10 then 1 else 2
  {
    if n >= 10 {
      assert |NatToString(n / 10)| == 1;
    }
  }

  /** int(s) for a string of decimal digits. */
  function ParseDigits(s: string): nat
    requires forall k :: 0 <= k < |s| ==> IsDigit(s[k])
  {
    if s == [] then 0 else 10 * ParseDigits(s[..|s| - 1]) + DigitValue(s[|s| - 1])
  }

  function DigitValue(c: char): nat
    requires IsDigit(c)
  {
    c as int - '0' as int
  }

  /** Reading back the decimal text of a number gives the number. */
  lemma {:induction false} ParseNatToString(n: nat)
    ensures ParseDigits(NatToString(n)) == n
  {
    if n >= 10 {
      var s := NatToString(n);
      assert s[..|s| - 1] == NatToString(n / 10);
      ParseNatToString(n / 10);
    }
  }

  /** Leading zeros do not change the value of a digit string. */
  lemma {:induction false} ParseLeadingZeros(k: nat, s: string)
    requires forall j :: 0 <= j < |s| ==> IsDigit(s[j])
    ensures forall j :: 0 <= j < |Zeros(k) + s| ==> IsDigit((Zeros(k) + s)[j])
    ensures ParseDigits(Zeros(k) + s) == ParseDigits(s)
    decreases |s|, k
  {
    var z := Zeros(k) + s;
    assert forall j :: 0 <= j < |z| ==> IsDigit(z[j]) by {
      forall j | 0 <= j < |z| ensures IsDigit(z[j]) {
        if j < k { assert z[j] == Zeros(k)[j]; } else { assert z[j] == s[j - k]; }
      }
    }
    if s == [] {
      if k > 0 {
        assert z == Zeros(k);
        assert z[..k - 1] == Zeros(k - 1) + [] by {
          assert Zeros(k) == Zeros(k - 1) + "0" by { ZerosSnoc(k); }
        }
        ParseLeadingZeros(k - 1, []);
      }
    } else {
      assert z[..|z| - 1] == Zeros(k) + s[..|s| - 1];
      assert z[|z| - 1] == s[|s| - 1];
      ParseLeadingZeros(k, s[..|s| - 1]);
    }
  }

  lemma {:induction false} ZerosSnoc(k: nat)
    requires k > 0
    ensures Zeros(k) == Zeros(k - 1) + "0"
  {
  }

  /** Reading back a zero-padded number gives the number. */
  lemma ParseZeroPad(n: nat, width: int)
    ensures forall j :: 0 <= j < |ZeroPad(NatToString(n), width)| ==> IsDigit(ZeroPad(NatToString(n), width)[j])
    ensures ParseDigits(ZeroPad(NatToString(n), width)) == n
  {
    var d := NatToString(n);
    ParseNatToString(n);
    if |d| < width {
      ParseLeadingZeros(width - |d|, d);
      assert ZeroPad(d, width) == Zeros(width - |d|) + d;
    } else {
      assert ZeroPad(d, width) == d;
    }
  }

  /** str(i) for any int. */
  function IntToString(i: int): (r: string)
    ensures |r| >= 1
  {
    if i < 0 then "-" + NatToString(-i) else NatToString(i)
  }

  function Zeros(k: nat): (r: string)
    ensures |r| == k && forall j :: 0 <= j < k ==> r[j] == '0'
  {
    if k == 0 then "" else "0" + Zeros(k - 1)
  }

  /** Left-padding with '0' up to `width`: str.zfill on a digit string, and
      the `pad` helper of the task page. */
  function ZeroPad(s: string, width: int): (r: string)
    ensures |r| == if |s| >= width then |s| else width
    ensures r[|r| - |s|..] == s && forall j :: 0 <= j < |r| - |s| ==> r[j] == '0'
  {
    if |s| >= width then s else Zeros(width - |s|) + s
  }

  /** str.replace('\r\n', '\n'): scans left to right, replaces each
      non-overlapping "\r\n" pair by "\n". */
  function ReplaceCRLF(s: string): (r: string)
    decreases |s|
  {
    if |s| >= 2 && s[0] == '\r' && s[1] == '\n' then "\n" + ReplaceCRLF(s[2..])
    else if s == [] then ""
    else [s[0]] + ReplaceCRLF(s[1..])
  }

  /** `s[i]` is a carriage return standing right before a line feed. */
  predicate CRBeforeLF(s: string, i: int)
  {
    0 <= i && i + 1 < |s| && s[i] == '\r' && s[i + 1] == '\n'
  }

  /** Reference definition: keep every character except a carriage return
      that directly precedes a line feed. */
  function DropCRBeforeLF(s: string): string
  {
    if s == [] then ""
    else if CRBeforeLF(s, 0) then DropCRBeforeLF(s[1..])
    else [s[0]] + DropCRBeforeLF(s[1..])
  }

  /** Python's left-to-right replacement equals the per-character rule: so
      "\r\r\n" becomes "\r\n", and the result can itself hold "\r\n". */
  lemma {:induction false} ReplaceCRLFDropsCR(s: string)
    ensures ReplaceCRLF(s) == DropCRBeforeLF(s)
    decreases |s|
  {
    if |s| >= 2 && s[0] == '\r' && s[1] == '\n' {
      ReplaceCRLFDropsCR(s[2..]);
      assert s[1..][1..] == s[2..];
      assert !CRBeforeLF(s[1..], 0);
    } else if s != [] {
      ReplaceCRLFDropsCR(s[1..]);
    }
  }

  /** Text without carriage returns is left as it is. */
  lemma {:induction false} ReplaceCRLFNoCR(s: string)
    requires '\r' !in s
    ensures ReplaceCRLF(s) == s
    decreases |s|
  {
    if s != [] {
      assert s[0] != '\r';
      assert '\r' !in s[1..] by {
        forall k | 0 <= k < |s[1..]| ensures s[1..][k] != '\r' { assert s[1..][k] == s[k + 1]; }
      }
      ReplaceCRLFNoCR(s[1..]);
    }
  }
}
