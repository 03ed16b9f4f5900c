/**
  Segment file names: the store directory, a separator, the file id in
  decimal zero-padded to at least nine digits, and the `.data` suffix
  (Go's `fmt.Sprintf("%09d", fileId)`). Ids that need ten digits keep all ten.
 */
module DataFileName {
  import opened Types

  const DataFileNameSuffix := ".data"
  const FileIdWidth := 9
  const Separator := '/'

  predicate IsDigit(c: char) {
    '0' <= c <= '9'
  }

  predicate AllDigits(s: string) {
    forall i :: 0 <= i < |s| ==> IsDigit(s[i])
  }

  function DigitChar(d: nat): (c: char)
    requires d < 10
    ensures IsDigit(c) && c as int - '0' as int == d
  {
    ('0' as int + d) as char
  }

  /** The value of a string of decimal digits, most significant first. */
  function ParseDecimal(s: string): nat
    requires AllDigits(s)
  {
    if |s| == 0 then 0
    else ParseDecimal(s[..|s| - 1]) * 10 + (s[|s| - 1] as int - '0' as int)
  }

  /** `n` in decimal, without leading zeros. */
  function Decimal(n: nat): (s: string)
    ensures 1 <= |s|
    ensures AllDigits(s)
    ensures n > 0 ==> s[0] != '0'
  {
    if n < 10 then [DigitChar(n)]
    else Decimal(n / 10) + [DigitChar(n % 10)]
  }

  function Zeros(k: nat): (s: string)
    ensures |s| == k
    ensures forall i :: 0 <= i < k ==> s[i] == '0'
  {
    seq(k, _ => '0')
  }

  lemma {:induction false} ParseDecimalOfDecimal(n: nat)
    ensures ParseDecimal(Decimal(n)) == n
  {
    if n >= 10 {
      var s := Decimal(n);
      assert s[..|s| - 1] == Decimal(n / 10);
      ParseDecimalOfDecimal(n / 10);
    }
  }

  /** Leading zeros do not change the value of a digit string. */
  lemma {:induction false} ParseDecimalLeadingZeros(z: string, s: string)
    requires forall i :: 0 <= i < |z| ==> z[i] == '0'
    requires AllDigits(s)
    ensures AllDigits(z + s)
    ensures ParseDecimal(z + s) == ParseDecimal(s)
  {
    if |s| == 0 {
      assert z + s == z;
      ParseDecimalZeros(z);
    } else {
      var s' := s[..|s| - 1];
      assert (z + s)[..|z + s| - 1] == z + s';
      ParseDecimalLeadingZeros(z, s');
    }
  }

  lemma {:induction false} ParseDecimalZeros(z: string)
    requires forall i :: 0 <= i < |z| ==> z[i] == '0'
    ensures AllDigits(z)
    ensures ParseDecimal(z) == 0
  {
    if |z| > 0 {
      ParseDecimalZeros(z[..|z| - 1]);
    }
  }

  /** `fileId` as Go's `%09d` prints it. */
  function FormatFileId(fileId: uint32): (s: string)
    ensures FileIdWidth <= |s|
    ensures AllDigits(s)
    ensures ParseDecimal(s) == fileId
    ensures |s| > FileIdWidth ==> s[0] != '0'
  {
    var digits := Decimal(fileId);
    ParseDecimalOfDecimal(fileId);
    if |digits| < FileIdWidth then
      var padding := Zeros(FileIdWidth - |digits|);
      ParseDecimalLeadingZeros(padding, digits);
      padding + digits
    else
      digits
  }

  function Pow10(k: nat): (p: nat)
    ensures p >= 1
  {
    if k == 0 then 1 else 10 * Pow10(k - 1)
  }

  /** A string of `k` digits is worth less than 10^k. */
  lemma {:induction false} ParseDecimalUpperBound(s: string)
    requires AllDigits(s)
    ensures ParseDecimal(s) < Pow10(|s|)
  {
    if |s| > 0 {
      ParseDecimalUpperBound(s[..|s| - 1]);
    }
  }

  /** A string of `k` digits without a leading zero is worth at least 10^(k-1). */
  lemma {:induction false} ParseDecimalLowerBound(s: string)
    requires AllDigits(s) && 1 <= |s| && s[0] != '0'
    ensures Pow10(|s| - 1) <= ParseDecimal(s)
  {
    if |s| > 1 {
      ParseDecimalLowerBound(s[..|s| - 1]);
    }
  }

  /** Digit strings of one length with one value are the same string. */
  lemma {:induction false} ParseDecimalInjective(s: string, t: string)
    requires AllDigits(s) && AllDigits(t) && |s| == |t|
    requires ParseDecimal(s) == ParseDecimal(t)
    ensures s == t
  {
    if |s| > 0 {
      var s', t' := s[..|s| - 1], t[..|t| - 1];
      ParseDecimalInjective(s', t');
      assert s == s' + [s[|s| - 1]] && t == t' + [t[|t| - 1]];
    }
  }

  /**
    The `%09d` rendering is the only digit string of at least nine digits,
    with no zero in front beyond the padding, whose value is `fileId`.
   */
  lemma FormatFileIdUnique(fileId: uint32, s: string)
    requires AllDigits(s) && FileIdWidth <= |s| && ParseDecimal(s) == fileId
    requires |s| > FileIdWidth ==> s[0] != '0'
    ensures s == FormatFileId(fileId)
  {
    var f := FormatFileId(fileId);
    if |s| != |f| {
      var (long, short) := if |s| > |f| then (s, f) else (f, s);
      ParseDecimalLowerBound(long);
      ParseDecimalUpperBound(short);
      PowMonotone(|short|, |long| - 1);
      assert false;
    }
    ParseDecimalInjective(s, f);
  }

  lemma {:induction false} PowMonotone(i: nat, j: nat)
    requires i <= j
    ensures Pow10(i) <= Pow10(j)
  {
    if i < j {
      PowMonotone(i, j - 1);
    }
  }

  /** The path of the segment file for `fileId` inside `dirPath`. */
  function DataFileName(dirPath: string, fileId: uint32): (name: string)
    ensures |dirPath| + 1 + FileIdWidth + |DataFileNameSuffix| <= |name|
    ensures name[..|dirPath|] == dirPath
    ensures name[|dirPath|] == Separator
    ensures name[|name| - |DataFileNameSuffix|..] == DataFileNameSuffix
    ensures AllDigits(name[|dirPath| + 1..|name| - |DataFileNameSuffix|])
    ensures ParseDecimal(name[|dirPath| + 1..|name| - |DataFileNameSuffix|]) == fileId
    ensures name[|dirPath| + 1..|name| - |DataFileNameSuffix|] == FormatFileId(fileId)
  {
    var id := FormatFileId(fileId);
    var name := dirPath + [Separator] + id + DataFileNameSuffix;
    assert name[|dirPath| + 1..|name| - |DataFileNameSuffix|] == id;
    name
  }

  /** Two segments of one directory never share a file name. */
  lemma DataFileNameInjective(dirPath: string, a: uint32, b: uint32)
    requires a != b
    ensures DataFileName(dirPath, a) != DataFileName(dirPath, b)
  {
  }
}
