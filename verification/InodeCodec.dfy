/**
 Inodes inside file names: `tagsistant_inode_extract_from_path` and the stripping of the prefix
 (src/path_resolution.c:227-255, 1479-1490), and the `%d___%s` names written at 1005.
 */
module InodeCodec {
  import opened Schema

  const DELIMITER := "___"
  const TWO_31 := 0x8000_0000
  const TWO_32 := 0x1_0000_0000
  const TWO_64 := 0x1_0000_0000_0000_0000

  predicate IsDigit(c: char) {
    '0' <= c <= '9'
  }

  predicate AllDigits(s: string) {
    forall c :: c in s ==> IsDigit(c)
  }

  function Digit(d: nat): (c: char)
    requires d < 10
    ensures IsDigit(c) && c as int - '0' as int == d
  {
    (d + '0' as int) as char
  }

  function Decimal(n: nat): (s: string)
    ensures s != "" && AllDigits(s)
  {
    if n < 10 then [Digit(n)] else Decimal(n / 10) + [Digit(n % 10)]
  }

  function ParseDecimal(s: string): nat
    requires AllDigits(s)
  {
    if s == "" then 0
    else
      var front, last := s[..|s| - 1], s[|s| - 1];
      assert last in s && forall c :: c in front ==> c in s;
      10 * ParseDecimal(front) + (last as int - '0' as int)
  }

  lemma {:induction false} ParseInvertsDecimal(n: nat)
    ensures ParseDecimal(Decimal(n)) == n
  {
    if n >= 10 {
      ParseInvertsDecimal(n / 10);
      assert Decimal(n)[..|Decimal(n)| - 1] == Decimal(n / 10);
    }
  }

  /** `strtoul` saturates at 64 bits; the result is stored in 32. */
  function StrToUl(s: string): (r: nat)
    requires AllDigits(s)
    ensures r < TWO_32
  {
    var v := ParseDecimal(s);
    (if v < TWO_64 then v else TWO_64 - 1) % TWO_32
  }

  /** `printf("%d")` of a `uint32_t`: the upper half of the range prints as negative numbers. */
  function PrintSigned(inode: Inode): string
    requires inode < TWO_32
  {
    if inode < TWO_31 then Decimal(inode) else "-" + Decimal(TWO_32 - inode)
  }

  /** The name under which an object is stored in the archive and listed among homonyms. */
  function WithInode(inode: Inode, name: string): string
    requires inode < TWO_32
  {
    PrintSigned(inode) + DELIMITER + name
  }

  function DigitRun(s: string): (n: nat)
    ensures n <= |s| && AllDigits(s[..n]) && (n == |s| || !IsDigit(s[n]))
  {
    if s == "" || !IsDigit(s[0]) then 0 else 1 + DigitRun(s[1..])
  }

  /** `^([0-9]+)___`; giving back digits never helps, because the delimiter holds none. */
  predicate HasPrefix(s: string) {
    DigitRun(s) > 0 && DELIMITER <= s[DigitRun(s)..]
  }

  /** The second regular expression, `/([0-9]+)___`, at the leftmost slash where it matches. */
  function ExtractAfterSlash(path: string): Inode {
    if path == "" then 0
    else if path[0] == '/' && HasPrefix(path[1..]) then StrToUl(path[1..][..DigitRun(path[1..])])
    else ExtractAfterSlash(path[1..])
  }

  function Extract(path: string): Inode {
    if HasPrefix(path) then StrToUl(path[..DigitRun(path)]) else ExtractAfterSlash(path)
  }

  /** `g_regex_replace` of the anchored expression by nothing: only one prefix goes. */
  function Strip(path: string): string {
    if HasPrefix(path) then path[DigitRun(path) + |DELIMITER|..] else path
  }

  lemma {:induction false} DigitRunStops(digits: string, rest: string)
    requires AllDigits(digits) && (rest == "" || !IsDigit(rest[0]))
    ensures DigitRun(digits + rest) == |digits|
  {
    if digits == "" {
      assert digits + rest == rest;
    } else {
      assert digits[0] in digits && forall c :: c in digits[1..] ==> c in digits;
      assert (digits + rest)[1..] == digits[1..] + rest;
      DigitRunStops(digits[1..], rest);
    }
  }

  lemma PrefixOf(digits: string, name: string)
    requires AllDigits(digits) && digits != ""
    ensures var path := digits + DELIMITER + name;
      HasPrefix(path) && DigitRun(path) == |digits| && path[..|digits|] == digits && Strip(path) == name
  {
    var path := digits + DELIMITER + name;
    assert path == digits + (DELIMITER + name);
    DigitRunStops(digits, DELIMITER + name);
    assert path[|digits|..] == DELIMITER + name;
    assert path[|digits| + 3..] == name;
  }

  /** A signed 32-bit inode survives the round trip through any file name. */
  lemma RoundTrip(inode: Inode, name: string)
    requires 1 <= inode < TWO_31
    ensures Extract(WithInode(inode, name)) == inode && Strip(WithInode(inode, name)) == name
  {
    PrefixOf(Decimal(inode), name);
    ParseInvertsDecimal(inode);
  }

  lemma {:induction false} NoSlashNoInode(path: string)
    requires '/' !in path
    ensures ExtractAfterSlash(path) == 0
  {
    if path != "" {
      assert path[0] in path && forall c :: c in path[1..] ==> c in path;
      NoSlashNoInode(path[1..]);
    }
  }

  /** Over the whole range of `tagsistant_inode`, on names of one component, the bound is exact. */
  lemma RoundTripIffSigned(inode: Inode, name: string)
    requires 1 <= inode < TWO_32 && '/' !in name
    ensures Extract(WithInode(inode, name)) == inode <==> inode < TWO_31
  {
    if inode < TWO_31 {
      RoundTrip(inode, name);
    } else {
      var path := WithInode(inode, name);
      assert path[0] == '-' && DigitRun(path) == 0;
      assert forall c :: c in path ==> c == '-' || c in Decimal(TWO_32 - inode) || c == '_' || c in name;
      NoSlashNoInode(path);
    }
  }

  /** Printed inodes are told apart by what comes before the first underscore. */
  lemma PrintSignedShape(inode: Inode)
    requires inode < TWO_32
    ensures var p := PrintSigned(inode);
      p != "" && forall k :: 0 <= k < |p| ==> IsDigit(p[k]) || (k == 0 && p[k] == '-')
  {
  }

  lemma PrintSignedInjective(i: Inode, j: Inode)
    requires i < TWO_32 && j < TWO_32 && PrintSigned(i) == PrintSigned(j)
    ensures i == j
  {
    assert Decimal(i)[0] in Decimal(i) && Decimal(j)[0] in Decimal(j);
    if i < TWO_31 {
      assert PrintSigned(j)[0] != '-';
      ParseInvertsDecimal(i);
      ParseInvertsDecimal(j);
    } else {
      assert PrintSigned(j)[0] == '-';
      assert PrintSigned(i)[1..] == Decimal(TWO_32 - i) && PrintSigned(j)[1..] == Decimal(TWO_32 - j);
      ParseInvertsDecimal(TWO_32 - i);
      ParseInvertsDecimal(TWO_32 - j);
    }
  }

  /** Inode and name can both be read back from a stored name, over the whole 32-bit range. */
  lemma WithInodeInjective(i: Inode, n: string, j: Inode, m: string)
    requires i < TWO_32 && j < TWO_32 && WithInode(i, n) == WithInode(j, m)
    ensures i == j && n == m
  {
    var p, q := PrintSigned(i), PrintSigned(j);
    PrintSignedShape(i);
    PrintSignedShape(j);
    assert WithInode(i, n)[|p|] == '_' && WithInode(j, m)[|q|] == '_';
    assert |p| == |q|;
    assert WithInode(i, n)[..|p|] == p && WithInode(j, m)[..|q|] == q;
    assert WithInode(i, n)[|p| + 3..] == n && WithInode(j, m)[|q| + 3..] == m;
    PrintSignedInjective(i, j);
  }

  // ----- what the regular expressions match, written out -----

  /** `[0-9]+` */
  predicate Digits(d: string) {
    d != "" && forall c :: c in d ==> c in "0123456789"
  }

  lemma DigitsAreDigits(d: string)
    ensures Digits(d) <==> d != "" && AllDigits(d)
  {
    assert forall c :: IsDigit(c) <==> c in "0123456789";
  }

  /** `^([0-9]+)___` */
  ghost predicate Prefixed(path: string, d: string, n: string) {
    Digits(d) && path == d + "___" + n
  }

  /** `/([0-9]+)___`, after `p` */
  ghost predicate Embedded(path: string, p: string, d: string, n: string) {
    Digits(d) && path == p + ("/" + (d + "___" + n))
  }

  lemma PrefixedIs(path: string, d: string, n: string)
    requires Prefixed(path, d, n)
    ensures HasPrefix(path) && path[..DigitRun(path)] == d && Strip(path) == n
  {
    DigitsAreDigits(d);
    PrefixOf(d, n);
  }

  lemma HasPrefixIs(path: string) returns (d: string, n: string)
    requires HasPrefix(path)
    ensures Prefixed(path, d, n)
  {
    var k := DigitRun(path);
    d, n := path[..k], path[k + 3..];
    DigitsAreDigits(d);
    assert path[k..][..3] == "___" && path[k..][3..] == n;
    assert path == path[..k] + path[k..];
  }

  /** A prefix is taken off, and its number is the inode. */
  lemma ExtractsPrefix(path: string, d: string, n: string)
    requires Prefixed(path, d, n)
    ensures AllDigits(d) && Extract(path) == StrToUl(d) && Strip(path) == n
  {
    DigitsAreDigits(d);
    PrefixedIs(path, d, n);
  }

  /** Without a prefix the leftmost path element that has one gives the inode, and nothing is taken off. */
  lemma ExtractsLeftmost(path: string, p: string, d: string, n: string)
    requires forall d', n' :: !Prefixed(path, d', n')
    requires Embedded(path, p, d, n) && IsLeftmost(path, p)
    ensures AllDigits(d) && Extract(path) == StrToUl(d) && Strip(path) == path
  {
    DigitsAreDigits(d);
    if HasPrefix(path) {
      var d', n' := HasPrefixIs(path);
    }
    LeftmostAfterSlash(path, p, d, n);
  }

  lemma EmbeddedLater(c: char, path: string, p: string, d: string, n: string)
    requires Embedded(path, p, d, n)
    ensures Embedded([c] + path, [c] + p, d, n)
  {
    Regroup([c], p, "/" + (d + "___" + n));
  }

  lemma EmbeddedHere(path: string)
    requires path != "" && path[0] == '/' && HasPrefix(path[1..])
    ensures exists d, n :: Embedded(path, "", d, n)
  {
    var d, n := HasPrefixIs(path[1..]);
    assert path == "" + ("/" + path[1..]);
    assert Embedded(path, "", d, n);
  }

  ghost predicate IsLeftmost(path: string, p: string) {
    forall p', d, n :: Embedded(path, p', d, n) ==> |p| <= |p'|
  }

  lemma LeftmostLater(path: string, p: string)
    requires path != "" && p != "" && IsLeftmost(path, p)
    ensures IsLeftmost(path[1..], p[1..]) && !(path[0] == '/' && HasPrefix(path[1..]))
  {
    if path[0] == '/' && HasPrefix(path[1..]) {
      EmbeddedHere(path);
    }
    forall p', d, n | Embedded(path[1..], p', d, n) ensures |p[1..]| <= |p'| {
      assert path == [path[0]] + path[1..];
      EmbeddedLater(path[0], path[1..], p', d, n);
    }
  }

  lemma {:induction false} LeftmostAfterSlash(path: string, p: string, d: string, n: string)
    requires AllDigits(d) && Embedded(path, p, d, n) && IsLeftmost(path, p)
    ensures ExtractAfterSlash(path) == StrToUl(d)
  {
    if p == "" {
      assert path[1..] == d + "___" + n;
      PrefixedIs(path[1..], d, n);
    } else {
      LeftmostLater(path, p);
      assert path[1..] == p[1..] + ("/" + (d + "___" + n));
      LeftmostAfterSlash(path[1..], p[1..], d, n);
    }
  }

  /** Where neither expression matches there is no inode, and nothing is taken off. */
  lemma ExtractsNothing(path: string)
    requires forall d, n :: !Prefixed(path, d, n)
    requires forall p, d, n :: !Embedded(path, p, d, n)
    ensures Extract(path) == 0 && Strip(path) == path
  {
    if HasPrefix(path) {
      var d, n := HasPrefixIs(path);
    }
    NothingAfterSlash(path);
  }

  lemma {:induction false} NothingAfterSlash(path: string)
    requires forall p, d, n :: !Embedded(path, p, d, n)
    ensures ExtractAfterSlash(path) == 0
  {
    if path != "" {
      if path[0] == '/' && HasPrefix(path[1..]) {
        EmbeddedHere(path);
      }
      forall p, d, n ensures !Embedded(path[1..], p, d, n) {
        if Embedded(path[1..], p, d, n) {
          assert path == [path[0]] + path[1..];
          EmbeddedLater(path[0], path[1..], p, d, n);
        }
      }
      NothingAfterSlash(path[1..]);
    }
  }

  // ----- numbers, written out -----

  /** Decimal notation, digit by digit. */
  lemma DecimalDigits(n: nat, d: nat)
    requires d < 10
    ensures Decimal(d) == ["0123456789"[d]]
    ensures n > 0 ==> Decimal(10 * n + d) == Decimal(n) + ["0123456789"[d]]
  {
    assert Digit(d) == "0123456789"[d];
    assert (10 * n + d) / 10 == n && (10 * n + d) % 10 == d;
  }

  lemma ParseDigits(s: string, d: nat)
    requires AllDigits(s) && d < 10
    ensures AllDigits(s + ["0123456789"[d]]) && ParseDecimal(s + ["0123456789"[d]]) == 10 * ParseDecimal(s) + d
  {
    var longer := s + ["0123456789"[d]];
    assert longer[..|s|] == s && longer[|s|] == Digit(d);
  }

  /** A number in front of a name is read in 64 bits, where it saturates, and kept in 32. */
  lemma ReadsAnyNumber(number: nat, name: string)
    ensures Extract(Decimal(number) + "___" + name) ==
      if number < 0x1_0000_0000_0000_0000 then number % 0x1_0000_0000 else 0xFFFF_FFFF
    ensures Strip(Decimal(number) + "___" + name) == name
  {
    PrefixOf(Decimal(number), name);
    ParseInvertsDecimal(number);
  }

  /** Stored names, with `%d` for the inode. */
  lemma StoredNames(inode: Inode, name: string)
    requires inode < 0x1_0000_0000
    ensures WithInode(inode, name) ==
      (if inode < 0x8000_0000 then Decimal(inode) else "-" + Decimal(0x1_0000_0000 - inode)) + "___" + name
  {
  }
}
