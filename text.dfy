/** String helpers with Python's meaning: ASCII case mapping, `str(int)`,
    the slice `s[:-k]` and POSIX `os.path.join`. */
module Text {

  predicate IsDigit(c: char)
  {
    '0' <= c <= '9'
  }

  predicate NoSlash(s: string)
  {
    forall i :: 0 <= i < |s| ==> s[i] != '/'
  }

  function LowerChar(c: char): char
  {
    if 'A' <= c <= 'Z' then (c as int + 32) as char else c
  }

  function UpperChar(c: char): char
  {
    if 'a' <= c <= 'z' then (c as int - 32) as char else c
  }

  /** `str.lower()` / SQL `lower()` on the ASCII letters. */
  function Lower(s: string): (r: string)
    ensures |r| == |s|
  {
    seq(|s|, i requires 0 <= i < |s| => LowerChar(s[i]))
  }

  /** `str.upper()` on the ASCII letters. */
  function Upper(s: string): (r: string)
    ensures |r| == |s|
  {
    seq(|s|, i requires 0 <= i < |s| => UpperChar(s[i]))
  }

  /** Upper-casing first changes nothing that lower-casing would not:
      the two spellings of a name agree case-insensitively. */
  lemma LowerOfUpper(s: string)
    ensures Lower(Upper(s)) == Lower(s)
  {
  }

  lemma LowerIdempotent(s: string)
    ensures Lower(Lower(s)) == Lower(s)
  {
  }

  lemma LowerConcat(a: string, b: string)
    ensures Lower(a + b) == Lower(a) + Lower(b)
  {
  }

  lemma LowerDigits(s: string)
    requires forall i :: 0 <= i < |s| ==> IsDigit(s[i]) || s[i] == '-'
    ensures Lower(s) == s && Upper(s) == s
  {
  }

  function DigitChar(d: nat): (c: char)
    requires d < 10
    ensures IsDigit(c)
  {
    "0123456789"[d]
  }

  function DigitValue(c: char): nat
  {
    if IsDigit(c) then c as int - '0' as int else 0
  }

  /** `str(n)` for a non-negative int: decimal, no leading zeros. */
  function NatToString(n: nat): (s: string)
    ensures |s| >= 1
    ensures forall i :: 0 <= i < |s| ==> IsDigit(s[i])
    ensures s[0] == '0' ==> n == 0
    decreases n
  {
    if n < 10 then [DigitChar(n)] else NatToString(n / 10) + [DigitChar(n % 10)]
  }

  /** The decimal value of a string of digits (the inverse of `NatToString`). */
  function ParseNat(s: string): nat
  {
    if s == [] then 0 else ParseNat(s[..|s| - 1]) * 10 + DigitValue(s[|s| - 1])
  }

  lemma {:induction false} ParseNatToString(n: nat)
    ensures ParseNat(NatToString(n)) == n
    decreases n
  {
    var s := NatToString(n);
    if n >= 10 {
      ParseNatToString(n / 10);
      assert s[..|s| - 1] == NatToString(n / 10);
    }
  }

  /** `str(i)` for any int. */
  function IntToString(i: int): (s: string)
    ensures forall k :: 0 <= k < |s| ==> IsDigit(s[k]) || s[k] == '-'
  {
    if i < 0 then "-" + NatToString(-i) else NatToString(i)
  }

  function ParseInt(s: string): int
  {
    if |s| > 0 && s[0] == '-' then -(ParseNat(s[1..]) as int) else ParseNat(s)
  }

  /** Decimal rendering loses nothing: the year can be read back. */
  lemma ParseIntToString(i: int)
    ensures ParseInt(IntToString(i)) == i
  {
    if i < 0 {
      ParseNatToString(-i);
      assert IntToString(i)[1..] == NatToString(-i);
    } else {
      ParseNatToString(i);
    }
  }

  /** Python's `s[:-k]` for k >= 1: everything but the last k characters,
      or the empty string when s is shorter. */
  function DropLast(s: string, k: nat): (r: string)
    requires k >= 1
    ensures |s| >= k ==> |r| == |s| - k
  {
    if k <= |s| then s[..|s| - k] else ""
  }

  lemma DropLastOfSuffix(a: string, b: string)
    requires |b| >= 1
    ensures DropLast(a + b, |b|) == a
  {
    assert (a + b)[..|a|] == a;
  }

  /** The folders the downloads and the extracted files go to. */
  const RawData := "raw-data"
  const ExtractedZips := "extracted-zips"

  lemma FolderNames()
    ensures NoSlash(RawData) && NoSlash(ExtractedZips)
  {
  }

  /** `os.path.join(a, b)` on POSIX. */
  function PathJoin(a: string, b: string): string
  {
    if |b| > 0 && b[0] == '/' then b
    else if a == "" || a[|a| - 1] == '/' then a + b
    else a + "/" + b
  }

  /** Joining slash-free components puts one '/' between each two. */
  lemma PathJoinPlain(a: string, b: string, c: string)
    requires a != "" && NoSlash(a) && b != "" && NoSlash(b) && NoSlash(c)
    ensures PathJoin(a, b) == a + "/" + b
    ensures PathJoin(a + "/" + b, c) == a + "/" + b + "/" + c
  {
    assert a[|a| - 1] != '/';
    assert b[|b| - 1] != '/';
    assert (a + "/" + b)[|a + "/" + b| - 1] == b[|b| - 1];
    if c != "" {
      assert c[0] != '/';
    }
  }

  lemma NoSlashConcat(a: string, b: string)
    ensures NoSlash(a + b) <==> NoSlash(a) && NoSlash(b)
  {
    assert forall i :: 0 <= i < |a| ==> (a + b)[i] == a[i];
    assert forall i :: 0 <= i < |b| ==> (a + b)[|a| + i] == b[i];
  }

  /** Case mapping neither adds nor removes a '/'. */
  lemma CaseKeepsNoSlash(s: string)
    requires NoSlash(s)
    ensures NoSlash(Lower(s)) && NoSlash(Upper(s))
  {
  }
}
