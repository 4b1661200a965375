/** The string facilities the codec relies on: Rust's `str::split`, `starts_with`,
    `usize::to_string`, `usize::from_str`, `hex::encode`, and the growable `String`
    that encoders append to. */
module Text {
  import opened Wrappers

  const CRLF: string := "\r\n"

  /** `sep` occurs in `s` starting at index `i`. */
  predicate OccursAt(s: string, sep: string, i: int) {
    0 <= i && i + |sep| <= |s| && s[i..i + |sep|] == sep
  }

  /** `s` holds no occurrence of `sep`. */
  predicate Free(s: string, sep: string) {
    forall i :: 0 <= i <= |s| - |sep| ==> !OccursAt(s, sep, i)
  }

  /** No proper suffix of `sep` is also a prefix of it, so two occurrences never overlap. */
  predicate BorderFree(sep: string) {
    forall k :: 0 < k < |sep| ==> sep[k..] != sep[..|sep| - k]
  }

  lemma TwoCharBorderFree(sep: string)
    requires |sep| == 2 && sep[0] != sep[1]
    ensures BorderFree(sep)
  {
    assert sep[1..][0] != sep[..1][0];
  }

  lemma CrlfBorderFree()
    ensures BorderFree(CRLF)
  {
    TwoCharBorderFree(CRLF);
  }

  predicate StartsWith(s: string, prefix: string) {
    |prefix| <= |s| && s[..|prefix|] == prefix
  }

  /** `str::split` with a string pattern: the fragments between the leftmost
      non-overlapping occurrences of `sep`. There is always at least one fragment. */
  function Split(s: string, sep: string): (parts: seq<string>)
    requires |sep| > 0
    ensures |parts| >= 1
    decreases |s|
  {
    if |s| < |sep| then [s]
    else if s[..|sep|] == sep then [""] + Split(s[|sep|..], sep)
    else
      var rest := Split(s[1..], sep);
      [[s[0]] + rest[0]] + rest[1..]
  }

  /** The fragments glued back together with `sep` between neighbours. */
  function Join(parts: seq<string>, sep: string): string {
    if |parts| == 0 then ""
    else if |parts| == 1 then parts[0]
    else parts[0] + sep + Join(parts[1..], sep)
  }

  lemma JoinCons(c: char, parts: seq<string>, sep: string)
    requires |parts| >= 1
    ensures Join([[c] + parts[0]] + parts[1..], sep) == [c] + Join(parts, sep)
  {
    if |parts| > 1 {
      assert ([[c] + parts[0]] + parts[1..])[1..] == parts[1..];
    }
  }

  /** Splitting loses nothing: gluing the fragments back gives the text. */
  lemma {:induction false} JoinSplit(s: string, sep: string)
    requires |sep| > 0
    ensures Join(Split(s, sep), sep) == s
    decreases |s|
  {
    if |s| < |sep| {
    } else if s[..|sep|] == sep {
      var rest := Split(s[|sep|..], sep);
      JoinSplit(s[|sep|..], sep);
      assert ([""] + rest)[1..] == rest;
      assert s == sep + s[|sep|..];
    } else {
      var rest := Split(s[1..], sep);
      JoinSplit(s[1..], sep);
      JoinCons(s[0], rest, sep);
      assert s == [s[0]] + s[1..];
    }
  }

  lemma FreeTail(x: string, sep: string)
    requires |x| > 0 && Free(x, sep)
    ensures Free(x[1..], sep)
  {
    var t := x[1..];
    forall i | 0 <= i && i + |sep| <= |t| ensures !OccursAt(t, sep, i) {
      assert t[i..i + |sep|] == x[i + 1..i + 1 + |sep|];
      assert !OccursAt(x, sep, i + 1);
    }
  }

  /** A text that starts with a non-empty sep-free `x` followed by `sep` does not start with `sep`. */
  lemma NoEarlyMatch(x: string, sep: string, y: string)
    requires |x| > 0 && |sep| > 0 && BorderFree(sep) && Free(x, sep)
    ensures (x + sep + y)[..|sep|] != sep
  {
    var s := x + sep + y;
    if |x| >= |sep| {
      assert s[..|sep|] == x[0..0 + |sep|];
      assert !OccursAt(x, sep, 0);
    } else {
      var k := |x|;
      assert s[..|sep|] == x + sep[..|sep| - k];
      assert sep[k..] != sep[..|sep| - k];
      assert (x + sep[..|sep| - k])[k..] == sep[..|sep| - k];
    }
  }

  /** The first fragment of `x + sep + y` is `x` when `x` holds no `sep`. */
  lemma {:induction false} SplitFirst(x: string, sep: string, y: string)
    requires |sep| > 0 && BorderFree(sep) && Free(x, sep)
    ensures Split(x + sep + y, sep) == [x] + Split(y, sep)
    decreases |x|
  {
    var s := x + sep + y;
    if |x| == 0 {
      assert s == sep + y;
      assert s[..|sep|] == sep && s[|sep|..] == y;
    } else {
      NoEarlyMatch(x, sep, y);
      FreeTail(x, sep);
      SplitFirst(x[1..], sep, y);
      assert s[1..] == x[1..] + sep + y;
      assert [s[0]] + x[1..] == x;
    }
  }

  /** A sep-free text is a single fragment. */
  lemma {:induction false} SplitWhole(x: string, sep: string)
    requires |sep| > 0 && Free(x, sep)
    ensures Split(x, sep) == [x]
    decreases |x|
  {
    if |x| >= |sep| {
      assert !OccursAt(x, sep, 0);
      FreeTail(x, sep);
      SplitWhole(x[1..], sep);
      assert [x[0]] + x[1..] == x;
    }
  }

  /** Splitting undoes joining when no fragment holds the separator. */
  lemma {:induction false} SplitJoin(parts: seq<string>, sep: string)
    requires |parts| >= 1 && |sep| > 0 && BorderFree(sep)
    requires forall j :: 0 <= j < |parts| ==> Free(parts[j], sep)
    ensures Split(Join(parts, sep), sep) == parts
    decreases |parts|
  {
    if |parts| == 1 {
      SplitWhole(parts[0], sep);
    } else {
      SplitJoin(parts[1..], sep);
      SplitFirst(parts[0], sep, Join(parts[1..], sep));
    }
  }

  /** A trailing separator adds one empty fragment at the end. */
  lemma {:induction false} SplitAppendSep(w: string, sep: string)
    requires |sep| > 0 && BorderFree(sep)
    ensures Split(w + sep, sep) == Split(w, sep) + [""]
    decreases |w|
  {
    var s := w + sep;
    if |w| < |sep| {
      assert Free(w, sep);
      SplitFirst(w, sep, "");
      assert s == w + sep + "";
    } else if w[..|sep|] == sep {
      assert s[..|sep|] == sep;
      assert s[|sep|..] == w[|sep|..] + sep;
      SplitAppendSep(w[|sep|..], sep);
    } else {
      assert s[..|sep|] == w[..|sep|];
      assert s[1..] == w[1..] + sep;
      SplitAppendSep(w[1..], sep);
    }
  }

  /** The first fragment is a prefix of the text. */
  lemma {:induction false} SplitFirstIsPrefix(s: string, sep: string)
    requires |sep| > 0
    ensures |Split(s, sep)[0]| <= |s| && Split(s, sep)[0] == s[..|Split(s, sep)[0]|]
    decreases |s|
  {
    if |s| >= |sep| && s[..|sep|] != sep {
      SplitFirstIsPrefix(s[1..], sep);
    }
  }

  /** No fragment holds the separator. */
  lemma {:induction false} SplitFree(s: string, sep: string)
    requires |sep| > 0
    ensures forall j :: 0 <= j < |Split(s, sep)| ==> Free(Split(s, sep)[j], sep)
    decreases |s|
  {
    var parts := Split(s, sep);
    if |s| < |sep| {
    } else if s[..|sep|] == sep {
      SplitFree(s[|sep|..], sep);
      assert parts[1..] == Split(s[|sep|..], sep);
    } else {
      var rest := Split(s[1..], sep);
      SplitFree(s[1..], sep);
      SplitFirstIsPrefix(s[1..], sep);
      var f := [s[0]] + rest[0];
      assert parts[1..] == rest[1..];
      forall i | 0 <= i <= |f| - |sep| ensures !OccursAt(f, sep, i) {
        if i == 0 {
          assert f == s[..|f|];
          assert f[0..0 + |sep|] == s[..|sep|];
        } else {
          assert f[i..i + |sep|] == rest[0][i - 1..i - 1 + |sep|];
          assert !OccursAt(rest[0], sep, i - 1);
        }
      }
    }
  }

  /** A text holding the separator splits into at least two fragments. */
  lemma {:induction false} SplitAtOccurrence(s: string, sep: string, i: int)
    requires |sep| > 0 && OccursAt(s, sep, i)
    ensures |Split(s, sep)| >= 2
    decreases |s|
  {
    if s[..|sep|] != sep {
      assert s[0..0 + |sep|] == s[..|sep|];
      assert i > 0;
      assert s[1..][i - 1..i - 1 + |sep|] == s[i..i + |sep|];
      SplitAtOccurrence(s[1..], sep, i - 1);
    }
  }

  /** A text is a single fragment exactly when it holds no separator. */
  lemma SplitSingle(s: string, sep: string)
    requires |sep| > 0
    ensures |Split(s, sep)| == 1 <==> Free(s, sep)
  {
    if Free(s, sep) {
      SplitWhole(s, sep);
    } else {
      var i :| 0 <= i <= |s| - |sep| && OccursAt(s, sep, i);
      SplitAtOccurrence(s, sep, i);
    }
  }

  /** A text missing one of the separator's characters holds no separator. */
  lemma FreeWithout(s: string, sep: string, j: nat)
    requires j < |sep| && sep[j] !in s
    ensures Free(s, sep)
  {
    forall i | 0 <= i && i + |sep| <= |s| ensures !OccursAt(s, sep, i) {
      assert s[i..i + |sep|][j] == s[i + j];
    }
  }

  /** Gluing two sep-free texts with a non-empty glue none of whose characters occurs in
      `sep` gives a sep-free text. */
  lemma FreeConcat(a: string, c: string, b: string, sep: string)
    requires |c| > 0 && |sep| > 0 && Free(a, sep) && Free(b, sep)
    requires forall k :: 0 <= k < |c| ==> c[k] !in sep
    ensures Free(a + c + b, sep)
  {
    var s := a + c + b;
    forall i | 0 <= i && i + |sep| <= |s| ensures !OccursAt(s, sep, i) {
      if i + |sep| <= |a| {
        assert s[i..i + |sep|] == a[i..i + |sep|];
        assert !OccursAt(a, sep, i);
      } else if i >= |a| + |c| {
        var i' := i - |a| - |c|;
        assert s[i..i + |sep|] == b[i'..i' + |sep|];
        assert !OccursAt(b, sep, i');
      } else {
        var p := if i >= |a| then i else |a|;
        assert s[p] == c[p - |a|];
        assert s[i..i + |sep|][p - i] == s[p];
        assert sep[p - i] in sep;
      }
    }
  }

  // ---------------------------------------------------------------------------
  // Decimal numbers (`usize::to_string` and `usize::from_str`)

  const UsizeMax: nat := 0xFFFF_FFFF_FFFF_FFFF

  predicate IsDigit(c: char) {
    '0' <= c <= '9'
  }

  predicate AllDigits(s: string) {
    forall i :: 0 <= i < |s| ==> IsDigit(s[i])
  }

  function DigitChar(d: nat): (c: char)
    requires d < 10
  {
    ('0' as int + d) as char
  }

  function DigitValue(c: char): nat
    requires IsDigit(c)
  {
    c as int - '0' as int
  }

  /** The decimal text of `n`: digits only, and no leading zero unless `n` is 0. */
  function Decimal(n: nat): (r: string)
    ensures |r| >= 1 && AllDigits(r)
    ensures r[0] == '0' ==> n == 0
  {
    if n < 10 then [DigitChar(n)] else Decimal(n / 10) + [DigitChar(n % 10)]
  }

  /** The number a run of digits spells, most significant digit first. */
  function DigitsValue(s: string): nat
    requires AllDigits(s)
  {
    if |s| == 0 then 0 else 10 * DigitsValue(s[..|s| - 1]) + DigitValue(s[|s| - 1])
  }

  /** `str::parse::<usize>` on a 64-bit target: an optional `+`, then one or more decimal
      digits whose value fits in 64 bits. A lone sign, a `-`, any other character or an
      overflow is an error. */
  function ParseUsize(s: string): (r: Option<nat>)
    ensures r.Some? ==> r.value <= UsizeMax
  {
    if |s| == 0 then None
    else if (s[0] == '+' || s[0] == '-') && |s| == 1 then None
    else
      var digits := if s[0] == '+' then s[1..] else s;
      if AllDigits(digits) && DigitsValue(digits) <= UsizeMax then Some(DigitsValue(digits))
      else None
  }

  lemma {:induction false} DigitsValueDecimal(n: nat)
    ensures DigitsValue(Decimal(n)) == n
  {
    if n >= 10 {
      var r := Decimal(n);
      DigitsValueDecimal(n / 10);
      assert r[..|r| - 1] == Decimal(n / 10);
    }
  }

  /** Parsing the printed length gives the length back. */
  lemma ParseDecimal(n: nat)
    requires n <= UsizeMax
    ensures ParseUsize(Decimal(n)) == Some(n)
  {
    DigitsValueDecimal(n);
  }

  // ---------------------------------------------------------------------------
  // Lower-case hexadecimal (`hex::encode`)

  newtype byte = x: int | 0 <= x < 256

  function HexDigit(d: nat): char
    requires d < 16
  {
    if d < 10 then ('0' as int + d) as char else ('a' as int + d - 10) as char
  }

  /** The value of a lower-case hexadecimal digit. */
  function HexValue(c: char): Option<nat> {
    if '0' <= c <= '9' then Some(c as int - '0' as int)
    else if 'a' <= c <= 'f' then Some(c as int - 'a' as int + 10)
    else None
  }

  /** Two lower-case hexadecimal digits per byte, high nibble first. */
  function Hex(bytes: seq<byte>): (r: string)
    ensures |r| == 2 * |bytes|
  {
    if |bytes| == 0 then ""
    else [HexDigit(bytes[0] as int / 16), HexDigit(bytes[0] as int % 16)] + Hex(bytes[1..])
  }

  /** Reads back the bytes of a lower-case hexadecimal text. */
  function UnHex(s: string): Option<seq<byte>>
    decreases |s|
  {
    if |s| == 0 then Some([])
    else if |s| == 1 then None
    else match (HexValue(s[0]), HexValue(s[1]), UnHex(s[2..]))
      case (Some(hi), Some(lo), Some(rest)) => Some([(16 * hi + lo) as byte] + rest)
      case _ => None
  }

  /** Hex encoding loses nothing. */
  lemma {:induction false} UnHexHex(bytes: seq<byte>)
    ensures UnHex(Hex(bytes)) == Some(bytes)
  {
    if |bytes| > 0 {
      var s := Hex(bytes);
      UnHexHex(bytes[1..]);
      assert s[2..] == Hex(bytes[1..]);
      assert [bytes[0]] + bytes[1..] == bytes;
    }
  }

  // ---------------------------------------------------------------------------

  /** The caller-owned `String` that encoders append to. */
  class StringBuffer {
    var content: string

    constructor ()
      ensures content == ""
    {
      content := "";
    }

    /** `String::push_str` (and `write!` into a `String`, which cannot fail). */
    method PushStr(s: string)
      modifies this
      ensures content == old(content) + s
    {
      content := content + s;
    }
  }
}
