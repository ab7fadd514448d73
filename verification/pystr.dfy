/**
 * The Python string operations the EGI event helpers are built from:
 * `str.split`/`str.join`, namespace stripping (`_ns`), `str.strip`,
 * reversing and single replacement (used to drop the last ':' of a
 * timestamp), slicing (`_ns2py_time`) and `int(str)`.
 */
module PyStr {
  import opened Wrappers

  /** Position of the first occurrence of `c` in `s`. */
  function FirstIndex(s: string, c: char): (i: nat)
    requires c in s
    ensures i < |s| && s[i] == c && c !in s[..i]
  {
    if s[0] == c then 0
    else
      assert s == [s[0]] + s[1..];
      var j := FirstIndex(s[1..], c);
      assert s[..j + 1] == [s[0]] + s[1..][..j];
      j + 1
  }

  /** Position of the last occurrence of `c` in `s`. */
  function LastIndex(s: string, c: char): (i: nat)
    requires c in s
    ensures i < |s| && s[i] == c
    ensures forall m :: i < m < |s| ==> s[m] != c
  {
    if s[|s| - 1] == c then |s| - 1
    else
      assert s == s[..|s| - 1] + [s[|s| - 1]];
      LastIndex(s[..|s| - 1], c)
  }

  /** Any position holding the first `c` is the one FirstIndex finds. */
  lemma FirstIndexUnique(s: string, c: char, i: nat)
    requires i < |s| && s[i] == c
    requires forall m :: 0 <= m < i ==> s[m] != c
    ensures FirstIndex(s, c) == i
  {
    var f := FirstIndex(s, c);
    assert forall m :: 0 <= m < f ==> s[m] != c by {
      forall m | 0 <= m < f ensures s[m] != c {
        assert s[..f][m] == s[m];
      }
    }
  }

  // ----- str.split / str.join -----

  /** Python's `s.split(sep)` for a one-character separator: the pieces between separators. */
  function Split(s: string, sep: char): (parts: seq<string>)
    ensures |parts| >= 1
    ensures forall k :: 0 <= k < |parts| ==> sep !in parts[k]
  {
    if s == [] then [""]
    else
      var rest := Split(s[1..], sep);
      if s[0] == sep then [""] + rest
      else [[s[0]] + rest[0]] + rest[1..]
  }

  /** Python's `sep.join(parts)`. */
  function Join(sep: char, parts: seq<string>): string
  {
    if |parts| == 0 then ""
    else if |parts| == 1 then parts[0]
    else parts[0] + [sep] + Join(sep, parts[1..])
  }

  /** Joining the pieces of a split with the same separator gives the string back. */
  lemma {:induction false} JoinSplit(s: string, sep: char)
    ensures Join(sep, Split(s, sep)) == s
  {
    if s != [] {
      var rest := Split(s[1..], sep);
      JoinSplit(s[1..], sep);
      assert Join(sep, rest) == s[1..];
      if s[0] == sep {
        assert Split(s, sep) == [""] + rest;
        assert ([""] + rest)[1..] == rest;
      } else {
        var parts := [[s[0]] + rest[0]] + rest[1..];
        assert Split(s, sep) == parts;
        if |rest| == 1 {
          assert Join(sep, parts) == [s[0]] + rest[0];
        } else {
          assert parts[1..] == rest[1..];
          assert Join(sep, rest) == rest[0] + [sep] + Join(sep, rest[1..]);
          assert Join(sep, parts) == [s[0]] + rest[0] + [sep] + Join(sep, rest[1..]);
        }
        assert s == [s[0]] + s[1..];
      }
    }
  }

  /** The first piece of a split ends at the first separator. */
  lemma {:induction false} SplitAtFirst(s: string, sep: char)
    requires sep in s
    ensures Split(s, sep) == [s[..FirstIndex(s, sep)]] + Split(s[FirstIndex(s, sep) + 1..], sep)
  {
    if s[0] != sep {
      assert s == [s[0]] + s[1..];
      var j := FirstIndex(s[1..], sep);
      SplitAtFirst(s[1..], sep);
      assert s[1..][j + 1..] == s[j + 2..];
      assert s[..j + 1] == [s[0]] + s[1..][..j];
    }
  }

  // ----- _ns -----

  /**
   * `_ns`: removes an ElementTree `{namespace}` prefix, by splitting the tag
   * on '}' and joining every piece but the first back together.
   */
  function Ns(s: string): string
  {
    if '}' in s then Join('}', Split(s, '}')[1..]) else s
  }

  /**
   * A tag without '}' is returned unchanged; otherwise the result is exactly
   * the suffix after the first '}', later '}' characters included.
   */
  lemma NsDropsPrefix(s: string)
    ensures '}' !in s ==> Ns(s) == s
    ensures '}' in s ==> Ns(s) == s[FirstIndex(s, '}') + 1..]
  {
    if '}' in s {
      SplitAtFirst(s, '}');
      JoinSplit(s[FirstIndex(s, '}') + 1..], '}');
    }
  }

  /** A tag written `{uri}local` with a '}'-free uri comes back as `local`. */
  lemma NsStripsNamespace(uri: string, local: string)
    requires '}' !in uri
    ensures Ns("{" + uri + "}" + local) == local
  {
    var s := "{" + uri + "}" + local;
    NsDropsPrefix(s);
    assert s[|uri| + 1] == '}';
    assert s[..|uri| + 1] == "{" + uri;
    FirstIndexUnique(s, '}', |uri| + 1);
    assert s[|uri| + 2..] == local;
  }

  // ----- str.strip -----

  /** The characters Python's `str.isspace` accepts, which `str.strip()` removes. */
  predicate IsSpace(c: char)
  {
    var n := c as int;
    (9 <= n <= 13) || (28 <= n <= 32) || n == 0x85 || n == 0xA0 || n == 0x1680
    || (0x2000 <= n <= 0x200A) || n == 0x2028 || n == 0x2029 || n == 0x202F
    || n == 0x205F || n == 0x3000
  }

  /** `str.lstrip()`. */
  function LStrip(s: string): (r: string)
    ensures |r| <= |s| && r == s[|s| - |r|..]
    ensures forall k :: 0 <= k < |s| - |r| ==> IsSpace(s[k])
    ensures r != [] ==> !IsSpace(r[0])
  {
    if s != [] && IsSpace(s[0]) then LStrip(s[1..]) else s
  }

  /** `str.rstrip()`. */
  function RStrip(s: string): (r: string)
    ensures |r| <= |s| && r == s[..|r|]
    ensures forall k :: |r| <= k < |s| ==> IsSpace(s[k])
    ensures r != [] ==> !IsSpace(r[|r| - 1])
  {
    if s != [] && IsSpace(s[|s| - 1]) then RStrip(s[..|s| - 1]) else s
  }

  /** `str.strip()`. */
  function Strip(s: string): string
  {
    RStrip(LStrip(s))
  }

  /** `str.strip()` gives the empty string exactly for whitespace-only text, and never keeps whitespace at either end. */
  lemma StripEnds(s: string)
    ensures Strip(s) == [] <==> forall k :: 0 <= k < |s| ==> IsSpace(s[k])
    ensures Strip(s) != [] ==> !IsSpace(Strip(s)[0]) && !IsSpace(Strip(s)[|Strip(s)| - 1])
  {
    var l := LStrip(s);
    var r := RStrip(l);
    if r != [] {
      assert r[0] == l[0];
    }
  }

  // ----- reversal and single replacement -----

  /** `s[::-1]`. */
  function Reverse(s: string): (r: string)
    ensures |r| == |s|
    ensures forall k :: 0 <= k < |s| ==> r[k] == s[|s| - 1 - k]
  {
    seq(|s|, k requires 0 <= k < |s| => s[|s| - 1 - k])
  }

  /** `s.replace(c, "", 1)`: removes the first occurrence of `c`, if any. */
  function ReplaceFirst(s: string, c: char): string
  {
    if s == [] then []
    else if s[0] == c then s[1..]
    else [s[0]] + ReplaceFirst(s[1..], c)
  }

  /** `s.replace(c, "", 1)` leaves a string without `c` alone and otherwise cuts out its first `c`. */
  lemma {:induction false} ReplaceFirstRemovesFirst(s: string, c: char)
    ensures c !in s ==> ReplaceFirst(s, c) == s
    ensures c in s ==> ReplaceFirst(s, c) == s[..FirstIndex(s, c)] + s[FirstIndex(s, c) + 1..]
  {
    if s != [] && s[0] != c {
      assert s == [s[0]] + s[1..];
      ReplaceFirstRemovesFirst(s[1..], c);
      if c in s {
        var j := FirstIndex(s[1..], c);
        FirstIndexUnique(s, c, j + 1);
        assert s[..j + 1] == [s[0]] + s[1..][..j];
        assert s[j + 2..] == s[1..][j + 1..];
      }
    }
  }

  /**
   * The `beginTime` converter's text edit `t[::-1].replace(":", "", 1)[::-1]`:
   * the last ':' of the timestamp (the one inside the "+HH:MM" offset) is dropped.
   */
  function DropLastColon(t: string): (r: string)
    ensures ':' !in t ==> r == t
    ensures ':' in t ==> r == t[..LastIndex(t, ':')] + t[LastIndex(t, ':') + 1..]
  {
    var u := Reverse(t);
    var r := Reverse(ReplaceFirst(u, ':'));
    LastColonDropped(t);
    r
  }

  lemma LastColonDropped(t: string)
    ensures var r := Reverse(ReplaceFirst(Reverse(t), ':'));
      && (':' !in t ==> r == t)
      && (':' in t ==> r == t[..LastIndex(t, ':')] + t[LastIndex(t, ':') + 1..])
  {
    var u := Reverse(t);
    ReplaceFirstRemovesFirst(u, ':');
    if ':' in t {
      var k := LastIndex(t, ':');
      FirstColonOfReverse(t);
      ReverseOfRemoval(t, k);
    } else {
      NoColonInReverse(t);
      ReverseReverse(t);
    }
  }

  lemma ReverseReverse(t: string)
    ensures Reverse(Reverse(t)) == t
  {
    var u := Reverse(t);
    assert forall k :: 0 <= k < |t| ==> Reverse(u)[k] == u[|t| - 1 - k] == t[k];
  }

  lemma NoColonInReverse(t: string)
    requires ':' !in t
    ensures ':' !in Reverse(t)
  {
    var u := Reverse(t);
    forall i | 0 <= i < |t| ensures u[i] != ':' {
      assert u[i] == t[|t| - 1 - i];
    }
  }

  /** The first ':' of the reversed text is the mirror image of the last ':' of the text. */
  lemma FirstColonOfReverse(t: string)
    requires ':' in t
    ensures ':' in Reverse(t)
    ensures FirstIndex(Reverse(t), ':') == |t| - 1 - LastIndex(t, ':')
  {
    var n := |t|;
    var u := Reverse(t);
    var k := LastIndex(t, ':');
    var j := n - 1 - k;
    assert u[j] == ':';
    assert forall m :: 0 <= m < j ==> u[m] == t[n - 1 - m];
    FirstIndexUnique(u, ':', j);
  }

  /** Removing position j of the reversed text and reversing back removes position n-1-j. */
  lemma ReverseOfRemoval(t: string, k: nat)
    requires k < |t|
    ensures var u := Reverse(t); var j := |t| - 1 - k;
      Reverse(u[..j] + u[j + 1..]) == t[..k] + t[k + 1..]
  {
    var n := |t|;
    var u := Reverse(t);
    var j := n - 1 - k;
    var v := u[..j] + u[j + 1..];
    var r := Reverse(v);
    var want := t[..k] + t[k + 1..];
    forall m | 0 <= m < n - 1 ensures r[m] == want[m] {
      if m < k {
        assert r[m] == v[n - 2 - m] == u[n - 1 - m];
      } else {
        assert r[m] == v[n - 2 - m] == u[n - 2 - m];
      }
    }
  }

  // ----- slicing -----

  /** Python's `s[a:b]` for non-negative bounds: both are clamped to the length. */
  function Slice(s: string, a: nat, b: nat): string
  {
    var lo := if a < |s| then a else |s|;
    var hi := if b < |s| then b else |s|;
    if lo <= hi then s[lo..hi] else []
  }

  /**
   * Every case of a slice with non-negative bounds: in range it is the
   * subsequence, an end past the length stops at the length, and a start at
   * or past the end or the length gives the empty string.
   */
  lemma SliceCases(s: string, a: nat, b: nat)
    ensures a <= b <= |s| ==> Slice(s, a, b) == s[a..b]
    ensures a <= |s| <= b ==> Slice(s, a, b) == s[a..]
    ensures |s| <= a || b <= a ==> Slice(s, a, b) == []
  {
  }

  /**
   * The slicing of `_ns2py_time`: `nstime[0:10] + " " + nstime[11:26]`, the
   * text handed to the date parser.
   */
  function NsTimeText(s: string): (r: string)
    ensures |s| <= 10 ==> r == s + " "
    ensures |s| > 10 ==> r == (if |s| < 26 then s else s[..26])[10 := ' ']
  {
    SliceCases(s, 0, 10);
    SliceCases(s, 11, 26);
    Slice(s, 0, 10) + " " + Slice(s, 11, 26)
  }

  // ----- int(str) -----

  predicate IsDigit(c: char) { '0' <= c <= '9' }

  predicate AllDigits(s: string) { forall k :: 0 <= k < |s| ==> IsDigit(s[k]) }

  /** The number a string of decimal digits denotes. */
  function DigitsValue(ds: string): nat
    requires AllDigits(ds)
  {
    if ds == [] then 0
    else DigitsValue(ds[..|ds| - 1]) * 10 + (ds[|ds| - 1] as int - '0' as int)
  }

  /**
   * Python's `int(text)` on a string: surrounding whitespace is ignored, an
   * optional sign is followed by decimal digits; anything else raises ValueError.
   */
  function ParseInt(text: string): (r: Result<int>)
    ensures r.Err? ==> r.error == ValueError
    ensures Strip(text) == [] ==> r.Err?
  {
    var t := Strip(text);
    var negative := |t| > 0 && t[0] == '-';
    var digits := if |t| > 0 && (t[0] == '-' || t[0] == '+') then t[1..] else t;
    if digits != [] && AllDigits(digits) then
      var v: int := DigitsValue(digits);
      Ok(if negative then -v else v)
    else Err(ValueError)
  }

  /** Python's `str(n)` for a natural number. */
  function FormatNat(n: nat): (ds: string)
    ensures ds != [] && AllDigits(ds)
  {
    var d := [('0' as int + n % 10) as char];
    if n < 10 then d else FormatNat(n / 10) + d
  }

  /** Python's `str(n)`. */
  function FormatInt(n: int): string
  {
    if n < 0 then "-" + FormatNat(-n) else FormatNat(n)
  }

  lemma {:induction false} DigitsOfFormatNat(n: nat)
    ensures DigitsValue(FormatNat(n)) == n
  {
    var ds := FormatNat(n);
    if n >= 10 {
      DigitsOfFormatNat(n / 10);
      assert ds[..|ds| - 1] == FormatNat(n / 10);
    }
  }

  /** Text with no whitespace at either end is left alone by `str.strip()`. */
  lemma StripKeeps(s: string)
    requires s != [] && !IsSpace(s[0]) && !IsSpace(s[|s| - 1])
    ensures Strip(s) == s
  {
    assert LStrip(s) == s;
  }

  /** `int(str(n)) == n`: the integer parser undoes the integer printer. */
  lemma ParseFormat(n: int)
    ensures ParseInt(FormatInt(n)) == Ok(n)
  {
    var s := FormatInt(n);
    var ds := FormatNat(if n < 0 then -n else n);
    DigitsOfFormatNat(if n < 0 then -n else n);
    assert IsDigit(ds[|ds| - 1]);
    if n < 0 {
      assert s == "-" + ds;
      assert s[|s| - 1] == ds[|ds| - 1];
      StripKeeps(s);
      assert s[1..] == ds;
    } else {
      assert IsDigit(ds[0]);
      StripKeeps(s);
    }
  }
}
