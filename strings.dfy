/** The handful of PHP string built-ins the menu engine relies on, over
    `string` (a sequence of characters): truthiness, `rtrim`/`ltrim`/`trim`
    with one character, `implode`, `explode`, decimal rendering of an id and
    `intval` on a digit string. */
module PhpStrings {

  /** PHP truthiness of a string: only "" and "0" are falsy. */
  predicate Truthy(s: string) {
    s != "" && s != "0"
  }

  /** `rtrim($s, c)`: drop every trailing `c`. */
  function RTrim(s: string, c: char): string
    decreases |s|
  {
    if s != [] && s[|s| - 1] == c then RTrim(s[..|s| - 1], c) else s
  }

  /** `rtrim` keeps a prefix that does not end in `c` and drops only `c`s. */
  lemma {:induction false} RTrimShape(s: string, c: char)
    ensures |RTrim(s, c)| <= |s| && RTrim(s, c) == s[..|RTrim(s, c)|]
    ensures RTrim(s, c) == [] || RTrim(s, c)[|RTrim(s, c)| - 1] != c
    ensures forall i :: |RTrim(s, c)| <= i < |s| ==> s[i] == c
    decreases |s|
  {
    if s != [] && s[|s| - 1] == c {
      var p := s[..|s| - 1];
      RTrimShape(p, c);
      assert p[..|RTrim(p, c)|] == s[..|RTrim(p, c)|];
    }
  }

  /** Trimming twice is trimming once. */
  lemma RTrimTwice(s: string, c: char)
    ensures RTrim(RTrim(s, c), c) == RTrim(s, c)
  {
    RTrimShape(s, c);
  }

  /** `ltrim($s, c)`: drop every leading `c`. */
  function LTrim(s: string, c: char): string
    decreases |s|
  {
    if s != [] && s[0] == c then LTrim(s[1..], c) else s
  }

  /** `ltrim` keeps a suffix that does not start with `c` and drops only
      `c`s. */
  lemma {:induction false} LTrimShape(s: string, c: char)
    ensures |LTrim(s, c)| <= |s| && LTrim(s, c) == s[|s| - |LTrim(s, c)|..]
    ensures LTrim(s, c) == [] || LTrim(s, c)[0] != c
    ensures forall i :: 0 <= i < |s| - |LTrim(s, c)| ==> s[i] == c
    decreases |s|
  {
    if s != [] && s[0] == c {
      LTrimShape(s[1..], c);
      assert forall i :: 1 <= i < |s| ==> s[i] == s[1..][i - 1];
    }
  }

  /** Trimming twice is trimming once. */
  lemma LTrimTwice(s: string, c: char)
    ensures LTrim(LTrim(s, c), c) == LTrim(s, c)
  {
    LTrimShape(s, c);
  }

  /** `trim($s, c)`: drop every leading and every trailing `c`. */
  function Trim(s: string, c: char): (r: string)
    ensures r == [] || (r[0] != c && r[|r| - 1] != c)
    ensures exists i, j :: 0 <= i <= j <= |s| && r == s[i..j]
  {
    var t := RTrim(s, c);
    RTrimShape(s, c);
    var r := LTrim(t, c);
    LTrimShape(t, c);
    assert r == s[|t| - |r|..|t|];
    r
  }

  /** `implode(sep, segs)`. */
  function Join(segs: seq<string>, sep: char): string
    decreases |segs|
  {
    if |segs| == 0 then ""
    else if |segs| == 1 then segs[0]
    else segs[0] + [sep] + Join(segs[1..], sep)
  }

  /** Position of the first `c` in `s`. */
  function FirstIndex(s: string, c: char): (i: nat)
    requires c in s
    ensures i < |s| && s[i] == c && c !in s[..i]
  {
    if s[0] == c then 0
    else
      var j := FirstIndex(s[1..], c);
      assert s[1..][..j] == s[1..j + 1];
      1 + j
  }

  /** `explode(sep, s)`: the pieces between separators; never empty, and
      `implode` puts them back together. */
  function Split(s: string, sep: char): (r: seq<string>)
    ensures |r| >= 1
    ensures forall i :: 0 <= i < |r| ==> sep !in r[i]
    ensures Join(r, sep) == s
    decreases |s|
  {
    if sep !in s then [s]
    else
      var i := FirstIndex(s, sep);
      var rest := Split(s[i + 1..], sep);
      assert s == s[..i] + [sep] + s[i + 1..];
      [s[..i]] + rest
  }

  lemma {:induction false} JoinAppend(a: seq<string>, b: seq<string>, sep: char)
    requires |a| >= 1 && |b| >= 1
    ensures Join(a + b, sep) == Join(a, sep) + [sep] + Join(b, sep)
    decreases |a|
  {
    if |a| == 1 {
      assert (a + b)[1..] == b;
    } else {
      assert (a + b)[1..] == a[1..] + b;
      JoinAppend(a[1..], b, sep);
    }
  }

  /** `explode` undoes `implode` when no segment contains the separator. */
  lemma {:induction false} SplitJoin(segs: seq<string>, sep: char)
    requires |segs| >= 1
    requires forall i :: 0 <= i < |segs| ==> sep !in segs[i]
    ensures Split(Join(segs, sep), sep) == segs
    decreases |segs|
  {
    if |segs| > 1 {
      var s := Join(segs, sep);
      var tail := Join(segs[1..], sep);
      assert s == segs[0] + [sep] + tail;
      assert s[|segs[0]|] == sep;
      assert s[..|segs[0]|] == segs[0];
      assert sep in s;
      var i := FirstIndex(s, sep);
      assert i == |segs[0]|;
      assert s[i + 1..] == tail;
      SplitJoin(segs[1..], sep);
    }
  }

  /** Splitting at a separator splits the pieces on either side. */
  lemma SplitAround(a: string, b: string, sep: char)
    ensures Split(a + [sep] + b, sep) == Split(a, sep) + Split(b, sep)
  {
    var sa, sb := Split(a, sep), Split(b, sep);
    var segs := sa + sb;
    JoinAppend(sa, sb, sep);
    assert Join(segs, sep) == a + [sep] + b;
    assert forall i :: 0 <= i < |segs| ==> sep !in segs[i] by {
      forall i | 0 <= i < |segs| ensures sep !in segs[i] {
        if i < |sa| { assert segs[i] == sa[i]; } else { assert segs[i] == sb[i - |sa|]; }
      }
    }
    SplitJoin(segs, sep);
  }

  predicate IsDigit(c: char) {
    '0' <= c <= '9'
  }

  predicate AllDigits(s: string) {
    forall i :: 0 <= i < |s| ==> IsDigit(s[i])
  }

  function DigitChar(d: nat): (c: char)
    requires d < 10
    ensures IsDigit(c)
  {
    "0123456789"[d]
  }

  function DigitValue(c: char): nat
    requires IsDigit(c)
  {
    (c as int - '0' as int) as nat
  }

  /** The decimal rendering of a natural number, as PHP's `(string)` cast
      writes it. */
  function NatStr(n: nat): (s: string)
    ensures |s| >= 1 && AllDigits(s)
    ensures n >= 1 ==> Truthy(s)
  {
    if n < 10 then [DigitChar(n)] else NatStr(n / 10) + [DigitChar(n % 10)]
  }

  /** The number a string of digits denotes. */
  function ParseDigits(s: string): nat
    requires AllDigits(s)
  {
    if s == [] then 0 else ParseDigits(s[..|s| - 1]) * 10 + DigitValue(s[|s| - 1])
  }

  /** The longest prefix of `s` made of digits. */
  function DigitPrefix(s: string): (r: string)
    ensures |r| <= |s| && AllDigits(r) && r == s[..|r|]
    ensures |r| < |s| ==> !IsDigit(s[|r|])
  {
    if s != [] && IsDigit(s[0]) then
      var t := DigitPrefix(s[1..]);
      [s[0]] + t
    else []
  }

  /** `intval` on a string that starts with digits, as the path segments do;
      a string without leading digits gives 0. */
  function IntVal(s: string): nat {
    ParseDigits(DigitPrefix(s))
  }

  lemma DigitPrefixAllDigits(s: string)
    requires AllDigits(s)
    ensures DigitPrefix(s) == s
  {
  }

  /** `intval` reads back the decimal rendering. */
  lemma {:induction false} IntValNatStr(n: nat)
    ensures IntVal(NatStr(n)) == n
  {
    DigitPrefixAllDigits(NatStr(n));
    ParseNatStr(n);
  }

  lemma {:induction false} ParseNatStr(n: nat)
    ensures ParseDigits(NatStr(n)) == n
  {
    if n >= 10 {
      var s := NatStr(n);
      assert s[..|s| - 1] == NatStr(n / 10);
      ParseNatStr(n / 10);
    }
  }

  lemma NatStrNoChar(n: nat, c: char)
    requires !IsDigit(c)
    ensures c !in NatStr(n)
  {
  }
}
