// Names of split files: printed as <file>.part<number> with at least three
// digits, recognised and parsed back by suffix. A path is a slash-separated
// string; the suffix never contains a slash, so reading it off the whole path and
// off its last element gives the same.
module PartNames {
  const SUFFIX := ".part"
  const MAX_INT64: nat := 0x7fff_ffff_ffff_ffff

  predicate IsDigit(c: char) { '0' <= c <= '9' }

  predicate AllDigits(s: string) {
    forall i :: 0 <= i < |s| ==> IsDigit(s[i])
  }

  function DigitChar(d: nat): (c: char)
    requires d < 10
    ensures IsDigit(c)
  {
    '0' + d as char
  }

  function DigitOf(c: char): (d: nat)
    requires IsDigit(c)
    ensures d < 10
  {
    (c - '0') as nat
  }

  // Decimal notation, most significant digit first.
  function Decimal(n: nat): (s: string)
    ensures |s| > 0 && AllDigits(s)
  {
    if n < 10 then [DigitChar(n)] else Decimal(n / 10) + [DigitChar(n % 10)]
  }

  function Zeros(n: nat): (s: string)
    ensures |s| == n && AllDigits(s)
  {
    seq(n, _ => '0')
  }

  // The %03d verb.
  function Pad3(n: nat): (s: string)
    ensures |s| >= 3 && AllDigits(s)
  {
    var s := Decimal(n);
    if |s| < 3 then Zeros(3 - |s|) + s else s
  }

  function ValueOf(s: string): nat
    requires AllDigits(s)
  {
    if s == [] then 0 else 10 * ValueOf(s[..|s| - 1]) + DigitOf(s[|s| - 1])
  }

  lemma {:induction false} DecimalValue(n: nat)
    ensures ValueOf(Decimal(n)) == n
  {
    if n < 10 {
      assert [DigitChar(n)][..0] == [];
    } else {
      DecimalValue(n / 10);
      assert Decimal(n)[..|Decimal(n)| - 1] == Decimal(n / 10);
    }
  }

  lemma {:induction false} LeadingZeros(k: nat, s: string)
    requires AllDigits(s)
    ensures ValueOf(Zeros(k) + s) == ValueOf(s)
    decreases |s|, k
  {
    var t := Zeros(k) + s;
    if s == [] {
      if k > 0 {
        LeadingZeros(k - 1, []);
        assert t[..|t| - 1] == Zeros(k - 1) + [];
      }
    } else {
      LeadingZeros(k, s[..|s| - 1]);
      assert t[..|t| - 1] == Zeros(k) + s[..|s| - 1];
    }
  }

  lemma PadValue(n: nat)
    ensures ValueOf(Pad3(n)) == n
  {
    DecimalValue(n);
    var s := Decimal(n);
    if |s| < 3 {
      LeadingZeros(3 - |s|, s);
    }
  }

  predicate MatchesAt(s: string, sub: string, i: int) {
    0 <= i <= |s| - |sub| && s[i..i + |sub|] == sub
  }

  // The last match of `sub` at or before `from`, or -1.
  function LastMatch(s: string, sub: string, from: int): (i: int)
    ensures -1 <= i
    ensures i >= 0 ==> i <= from && MatchesAt(s, sub, i)
    ensures forall j :: i < j <= from ==> !MatchesAt(s, sub, j)
    decreases from + 1
  {
    if from < 0 then -1 else if MatchesAt(s, sub, from) then from else LastMatch(s, sub, from - 1)
  }

  function LastIndex(s: string, sub: string): (i: int)
    ensures i >= 0 ==> MatchesAt(s, sub, i)
    ensures forall j :: i < j ==> !MatchesAt(s, sub, j)
  {
    LastMatch(s, sub, |s| - |sub|)
  }

  // A match of \.part\d{3,}$ that starts at i.
  predicate PartMatchAt(name: string, i: int) {
    MatchesAt(name, SUFFIX, i) && |name| - (i + 5) >= 3 && AllDigits(name[i + 5..])
  }

  predicate IsPart(name: string) {
    exists i :: 0 <= i < |name| && PartMatchAt(name, i)
  }

  function OrigOf(name: string): string {
    var i := LastIndex(name, SUFFIX);
    if i < 0 then name else name[..i]
  }

  // Atoi of the digits after the suffix; 0 when it fails, as it does past int64.
  function PartNumber(name: string): nat {
    var i := LastIndex(name, SUFFIX);
    if i < 0 then 0
    else
      var digits := name[i + 5..];
      if digits != [] && AllDigits(digits) && ValueOf(digits) <= MAX_INT64 then ValueOf(digits) else 0
  }

  function PartName(file: string, n: nat): string {
    file + SUFFIX + Pad3(n)
  }

  lemma NoDotAfter(name: string, i: int, j: int)
    requires PartMatchAt(name, i) && i < j < |name|
    ensures name[j] != '.'
  {
    if j < i + 5 {
      assert name[j] == name[i..i + 5][j - i];
    } else {
      assert IsDigit(name[i + 5..][j - (i + 5)]);
    }
  }

  lemma NoSlashAfter(name: string, i: nat, j: nat)
    requires i <= j < |name|
    ensures PartMatchAt(name, i) ==> name[j] != '/'
  {
    if PartMatchAt(name, i) {
      if j < i + 5 {
        assert name[j] == name[i..i + 5][j - i];
      } else {
        assert IsDigit(name[i + 5..][j - (i + 5)]);
      }
    }
  }

  // The pattern can only match at the last occurrence of the suffix.
  lemma PartMatchIsLast(name: string, i: int)
    requires PartMatchAt(name, i)
    ensures LastIndex(name, SUFFIX) == i
  {
    var l := LastIndex(name, SUFFIX);
    assert i <= l;
    assert name[l..l + 5][0] == '.';
    if i < l {
      NoDotAfter(name, i, l);
    }
  }

  // Printing and parsing: a part name is recognised as a part and gives back its
  // file and, within int64, its number, whatever the file is called.
  lemma PartNameParses(file: string, n: nat)
    ensures IsPart(PartName(file, n))
    ensures OrigOf(PartName(file, n)) == file
    ensures PartNumber(PartName(file, n)) == if n <= MAX_INT64 then n else 0
  {
    var name := PartName(file, n);
    assert name[|file|..|file| + 5] == SUFFIX;
    assert name[|file| + 5..] == Pad3(n);
    assert PartMatchAt(name, |file|);
    PartMatchIsLast(name, |file|);
    PadValue(n);
  }

  // A part's file is a proper prefix of its name.
  lemma OrigIsShorter(name: string)
    requires IsPart(name)
    ensures |OrigOf(name)| < |name|
  {
    var i :| 0 <= i < |name| && PartMatchAt(name, i);
    PartMatchIsLast(name, i);
  }

  // A file is a part exactly if its name is some file's with the suffix and at least
  // three digits, whoever printed it; it then belongs to that file, under that number,
  // or 0 past int64.
  lemma IsPartIff(name: string)
    ensures IsPart(name) <==> exists f, d :: name == f + ".part" + d && |d| >= 3 && AllDigits(d)
  {
    if i :| 0 <= i < |name| && PartMatchAt(name, i) {
      assert name == name[..i] + ".part" + name[i + 5..];
    }
    if f, d :| name == f + ".part" + d && |d| >= 3 && AllDigits(d) {
      WithSuffix(f, d);
      assert PartMatchAt(name, |f|);
    }
  }

  lemma WithSuffix(f: string, d: string)
    ensures var name := f + ".part" + d; name[|f|..|f| + 5] == ".part" && name[|f| + 5..] == d && name[..|f|] == f
  {
  }

  lemma PartParses(f: string, d: string)
    requires |d| >= 3 && AllDigits(d)
    ensures OrigOf(f + ".part" + d) == f
    ensures PartNumber(f + ".part" + d) == if ValueOf(d) <= 9_223_372_036_854_775_807 then ValueOf(d) else 0
  {
    WithSuffix(f, d);
    assert PartMatchAt(f + ".part" + d, |f|);
    PartMatchIsLast(f + ".part" + d, |f|);
  }

  // A number is printed with three digits, or as many as it takes.
  lemma {:induction false} PrintedLength(n: nat)
    ensures |Decimal(n)| > 1 ==> Decimal(n)[0] != '0'
    ensures |Pad3(n)| == 3 || (|Pad3(n)| > 3 && Pad3(n)[0] != '0')
  {
    if n >= 10 {
      PrintedLength(n / 10);
      assert n / 10 < 10 ==> Decimal(n / 10) == [DigitChar(n / 10)];
      assert Decimal(n)[0] == Decimal(n / 10)[0];
    }
  }
}
