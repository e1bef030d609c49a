/**
 * The parts of the .NET base library the upload pipeline leans on, as they
 * behave on the Unix hosts the service is deployed to: Path.GetExtension,
 * Path.Combine, string.ToLowerInvariant, string.IsNullOrWhiteSpace,
 * string.IndexOfAny, string.Join, long.ToString and C#'s integer division.
 */
module Platform {

  /** Path.DirectorySeparatorChar on Unix. */
  const DirectorySeparator: char := '/'

  /** Path.GetInvalidFileNameChars() on Unix: the NUL character and the separator. */
  const UnixInvalidFileNameChars: set<char> := {'\0', '/'}

  // ---------------------------------------------------------------- integers

  /**
   * C#'s `/` on long: the quotient truncated toward zero, so the remainder is
   * smaller than the divisor in magnitude and takes the sign of the dividend.
   */
  function TruncDiv(a: int, b: int): (q: int)
    requires b > 0
    ensures var rem := a - q * b; -b < rem < b && (a >= 0 ==> rem >= 0) && (a < 0 ==> rem <= 0)
  {
    var n := if a >= 0 then a else -a;
    assert n == (n / b) * b + n % b;
    if a >= 0 then a / b else -((-a) / b)
  }

  /** C#'s rule for the remainder fixes the quotient: no other quotient meets it. */
  lemma TruncDivUnique(a: int, b: int, q: int)
    requires b > 0
    requires var rem := a - q * b; -b < rem < b && (a >= 0 ==> rem >= 0) && (a < 0 ==> rem <= 0)
    ensures q == TruncDiv(a, b)
  {
    var t := TruncDiv(a, b);
    var d := q - t;
    assert (a - t * b) - (a - q * b) == d * b;
    if d >= 1 {
      assert false;
    } else if d <= -1 {
      assert false;
    }
  }

  function DigitChar(d: nat): (c: char)
    requires d < 10
    ensures '0' <= c <= '9'
  {
    ('0' as int + d) as char
  }

  predicate IsDigits(s: string)
  {
    forall i :: 0 <= i < |s| ==> '0' <= s[i] <= '9'
  }

  /** The decimal rendering of a non-negative long: digits, no leading zero. */
  function NatToString(n: nat): (s: string)
    ensures |s| >= 1 && IsDigits(s)
    ensures s[0] == '0' ==> n == 0
    decreases n
  {
    if n < 10 then [DigitChar(n)] else NatToString(n / 10) + [DigitChar(n % 10)]
  }

  /** long.ToString(): a minus sign before the digits of a negative number. */
  function IntToString(n: int): (s: string)
    ensures n >= 0 ==> |s| >= 1 && (s[0] == '0' ==> n == 0)
    ensures n >= 0 ==> IsDigits(s) && DigitsValue(s) == n
    ensures n < 0 ==> |s| >= 2 && s[0] == '-' && s[1] != '0' && IsDigits(s[1..]) && DigitsValue(s[1..]) == -n
  {
    NatToStringRoundTrip(if n < 0 then -n else n);
    if n < 0 then "-" + NatToString(-n) else NatToString(n)
  }

  /** The number a string of decimal digits denotes: the reading that inverts NatToString. */
  function DigitsValue(s: string): nat
    requires IsDigits(s)
  {
    if s == [] then 0 else DigitsValue(s[..|s| - 1]) * 10 + (s[|s| - 1] as int - '0' as int)
  }

  lemma {:induction false} NatToStringRoundTrip(n: nat)
    ensures DigitsValue(NatToString(n)) == n
    decreases n
  {
    if n >= 10 {
      NatToStringRoundTrip(n / 10);
      var s := NatToString(n);
      assert s[..|s| - 1] == NatToString(n / 10);
    }
  }

  // ------------------------------------------------------------------ strings

  /** ToLowerInvariant, restricted to the ASCII letters. */
  function ToLowerChar(c: char): (l: char)
  {
    if 'A' <= c <= 'Z' then (c as int - 'A' as int + 'a' as int) as char else c
  }

  predicate HasNoUpperAscii(s: string)
  {
    forall i :: 0 <= i < |s| ==> !('A' <= s[i] <= 'Z')
  }

  /** string.ToLowerInvariant(), character by character. */
  function ToLowerInvariant(s: string): (r: string)
    ensures |r| == |s|
    ensures forall i :: 0 <= i < |s| ==> r[i] == ToLowerChar(s[i])
  {
    if s == [] then [] else [ToLowerChar(s[0])] + ToLowerInvariant(s[1..])
  }

  lemma LoweredHasNoUpper(s: string)
    ensures HasNoUpperAscii(ToLowerInvariant(s))
    ensures ToLowerInvariant(ToLowerInvariant(s)) == ToLowerInvariant(s)
  {
  }

  lemma {:induction false} LowerCaseIsFixed(s: string)
    requires HasNoUpperAscii(s)
    ensures ToLowerInvariant(s) == s
  {
    var r := ToLowerInvariant(s);
    assert forall i | 0 <= i < |s| :: r[i] == s[i];
  }

  /**
   * char.IsWhiteSpace: the Unicode separators plus U+0009..U+000D and U+0085.
   * In ASCII that is the space and tab through carriage return; no letter,
   * digit, '.' or separator is white space.
   */
  function IsWhiteSpace(c: char): (b: bool)
    ensures c < '\U{0080}' ==> (b <==> c == ' ' || '\t' <= c <= '\r')
    ensures b ==> c != '.' && c != DirectorySeparator && !('0' <= c <= '9') && !('A' <= c <= 'Z') && !('a' <= c <= 'z')
  {
    ('\t' <= c <= '\r') || c == ' ' || c == '\U{0085}' || c == '\U{00A0}' || c == '\U{1680}'
    || ('\U{2000}' <= c <= '\U{200A}') || c == '\U{2028}' || c == '\U{2029}'
    || c == '\U{202F}' || c == '\U{205F}' || c == '\U{3000}'
  }

  /** string.TrimStart(): the string without its leading white space. */
  function TrimStart(s: string): (r: string)
    ensures |r| <= |s| && r == s[|s| - |r|..]
    ensures r != "" ==> !IsWhiteSpace(r[0])
    ensures forall i :: 0 <= i < |s| - |r| ==> IsWhiteSpace(s[i])
  {
    if s != "" && IsWhiteSpace(s[0]) then TrimStart(s[1..]) else s
  }

  /** string.IsNullOrWhiteSpace on a non-null string: empty or white space only. */
  predicate IsNullOrWhiteSpace(s: string)
  {
    forall i :: 0 <= i < |s| ==> IsWhiteSpace(s[i])
  }

  /** As .NET documents it, a string is null-or-white-space iff trimming leaves nothing. */
  lemma NullOrWhiteSpaceIffTrimsToEmpty(s: string)
    ensures IsNullOrWhiteSpace(s) <==> TrimStart(s) == ""
  {
    var r := TrimStart(s);
    if r != "" {
      assert s[|s| - |r|] == r[0];
    }
  }

  /** Some character of `s` is one of `chars`. */
  predicate ContainsAnyOf(s: string, chars: set<char>)
  {
    exists i :: 0 <= i < |s| && s[i] in chars
  }

  /** string.IndexOfAny(chars): the first index holding one of `chars`, or -1. */
  function IndexOfAny(s: string, chars: set<char>): (i: int)
    ensures -1 <= i < |s|
    ensures i >= 0 ==> s[i] in chars
    ensures forall j :: 0 <= j < |s| && (i < 0 || j < i) ==> s[j] !in chars
    ensures i >= 0 <==> ContainsAnyOf(s, chars)
  {
    if s == "" then -1
    else if s[0] in chars then 0
    else
      var k := IndexOfAny(s[1..], chars);
      assert forall j :: 1 <= j < |s| ==> s[j] == s[1..][j - 1];
      if k < 0 then -1 else k + 1
  }

  /** `t` occurs in `s` starting at index `k`. */
  predicate SubstringAt(s: string, t: string, k: int)
  {
    0 <= k <= |s| - |t| && s[k..k + |t|] == t
  }

  predicate ContainsSubstring(s: string, t: string)
  {
    exists k :: 0 <= k <= |s| && SubstringAt(s, t, k)
  }

  /** string.Join(separator, items). */
  function Join(separator: string, items: seq<string>): (r: string)
    ensures items == [] ==> r == ""
    ensures |items| == 1 ==> r == items[0]
  {
    if |items| == 0 then ""
    else if |items| == 1 then items[0]
    else items[0] + separator + Join(separator, items[1..])
  }

  /** Joining one more item appends the separator and that item. */
  lemma {:induction false} JoinAppend(separator: string, items: seq<string>, x: string)
    requires items != []
    ensures Join(separator, items + [x]) == Join(separator, items) + separator + x
    decreases |items|
  {
    if |items| == 1 {
      assert items + [x] == [items[0], x];
      assert [items[0], x][1..] == [x];
    } else {
      assert (items + [x])[1..] == items[1..] + [x];
      JoinAppend(separator, items[1..], x);
    }
  }

  /** Every item appears, in full, in the joined string. */
  lemma {:induction false} JoinContainsItem(separator: string, items: seq<string>, i: nat)
    requires i < |items|
    ensures ContainsSubstring(Join(separator, items), items[i])
    decreases i
  {
    var s := Join(separator, items);
    if i == 0 {
      if |items| > 1 {
        assert s == items[0] + (separator + Join(separator, items[1..]));
      }
      assert SubstringAt(s, items[0], 0);
    } else {
      JoinContainsItem(separator, items[1..], i - 1);
      var t := items[i];
      assert items[1..][i - 1] == t;
      var rest := Join(separator, items[1..]);
      var k :| 0 <= k <= |rest| && SubstringAt(rest, t, k);
      assert 0 <= k <= |rest| - |t| && rest[k..k + |t|] == t;
      var off := |items[0]| + |separator|;
      assert s == items[0] + separator + rest;
      assert s[off + k..off + k + |t|] == rest[k..k + |t|];
      assert SubstringAt(s, items[i], off + k);
    }
  }

  /** A string placed between two others is a substring of the result. */
  lemma InfixIsSubstring(a: string, t: string, b: string)
    ensures ContainsSubstring(a + t + b, t)
  {
    assert SubstringAt(a + t + b, t, |a|);
  }

  /** A substring of a substring is a substring. */
  lemma SubstringTransitive(s: string, t: string, u: string)
    requires ContainsSubstring(s, t) && ContainsSubstring(t, u)
    ensures ContainsSubstring(s, u)
  {
    var k :| 0 <= k <= |s| && SubstringAt(s, t, k);
    var j :| 0 <= j <= |t| && SubstringAt(t, u, j);
    assert s[k..k + |t|] == t;
    forall m | 0 <= m < |u|
      ensures s[k + j + m] == u[m]
    {
      assert s[k + j + m] == s[k..k + |t|][j + m];
      assert t[j..j + |u|][m] == t[j + m];
    }
    assert s[k + j..k + j + |u|] == u;
    assert SubstringAt(s, u, k + j);
  }

  // -------------------------------------------------------------------- paths

  /**
   * Path.GetExtension's backward scan: `i` is the number of characters not yet
   * looked at; the characters after them are neither '.' nor the separator.
   */
  function ExtensionScan(path: string, i: nat): string
    requires i <= |path|
    requires forall k :: i <= k < |path| ==> path[k] != '.' && path[k] != DirectorySeparator
    decreases i
  {
    if i == 0 then ""
    else if path[i - 1] == '.' then (if i == |path| then "" else path[i - 1..])
    else if path[i - 1] == DirectorySeparator then ""
    else ExtensionScan(path, i - 1)
  }

  /** What the scan finds is empty, or a final '.' and the characters after it, none of them '.' or a separator. */
  lemma {:induction false} ScanShape(path: string, i: nat)
    requires i <= |path|
    requires forall k :: i <= k < |path| ==> path[k] != '.' && path[k] != DirectorySeparator
    ensures var ext := ExtensionScan(path, i);
      && (ext != "" ==> 2 <= |ext| <= |path| && ext == path[|path| - |ext|..] && ext[0] == '.')
      && (forall k :: 1 <= k < |ext| ==> ext[k] != '.' && ext[k] != DirectorySeparator)
    decreases i
  {
    if i > 0 && path[i - 1] != '.' && path[i - 1] != DirectorySeparator {
      ScanShape(path, i - 1);
    }
  }

  /**
   * Path.GetExtension: from the last '.' after the last separator to the end,
   * or empty when the final component has no '.' or ends with it.
   */
  function GetExtension(path: string): (ext: string)
    ensures ext != "" ==> 2 <= |ext| <= |path| && ext == path[|path| - |ext|..] && ext[0] == '.'
    ensures forall k :: 1 <= k < |ext| ==> ext[k] != '.' && ext[k] != DirectorySeparator
  {
    ScanShape(path, |path|);
    ExtensionScan(path, |path|)
  }

  /** The scan passes over characters that are neither '.' nor the separator. */
  lemma {:induction false} ScanSkips(path: string, i: nat, j: nat)
    requires j <= i <= |path|
    requires forall k :: j <= k < |path| ==> path[k] != '.' && path[k] != DirectorySeparator
    ensures ExtensionScan(path, i) == ExtensionScan(path, j)
    decreases i
  {
    if i > j {
      assert path[i - 1] != '.' && path[i - 1] != DirectorySeparator;
      ScanSkips(path, i - 1, j);
    }
  }

  /** A final '.' followed by a non-empty tail without '.' or separator is the extension. */
  lemma ExtensionOfDottedSuffix(prefix: string, tail: string)
    requires tail != ""
    requires forall k :: 0 <= k < |tail| ==> tail[k] != '.' && tail[k] != DirectorySeparator
    ensures GetExtension(prefix + "." + tail) == "." + tail
  {
    var path := prefix + "." + tail;
    var dot := |prefix|;
    assert forall k :: dot + 1 <= k < |path| ==> path[k] == tail[k - dot - 1];
    ScanSkips(path, |path|, dot + 1);
    assert path[dot..] == "." + tail;
  }

  /** A name without any '.' has no extension. */
  lemma NoDotNoExtension(path: string)
    requires forall k :: 0 <= k < |path| ==> path[k] != '.'
    ensures GetExtension(path) == ""
  {
  }

  /** A name ending in '.' has no extension. */
  lemma TrailingDotNoExtension(path: string)
    requires path != "" && path[|path| - 1] == '.'
    ensures GetExtension(path) == ""
  {
  }

  /** Lowering a name and taking its extension commute, as '.' and '/' are not letters. */
  lemma {:induction false} ExtensionOfLowered(path: string)
    ensures GetExtension(ToLowerInvariant(path)) == ToLowerInvariant(GetExtension(path))
  {
    var low := ToLowerInvariant(path);
    ScanOfLowered(path, low, |path|);
  }

  lemma {:induction false} ScanOfLowered(path: string, low: string, i: nat)
    requires low == ToLowerInvariant(path)
    requires i <= |path|
    requires forall k :: i <= k < |path| ==> path[k] != '.' && path[k] != DirectorySeparator
    ensures ExtensionScan(low, i) == ToLowerInvariant(ExtensionScan(path, i))
    decreases i
  {
    if i > 0 {
      if path[i - 1] == '.' {
        if i < |path| {
          var e := ToLowerInvariant(path[i - 1..]);
          assert low[i - 1..] == e;
        }
      } else if path[i - 1] != DirectorySeparator {
        ScanOfLowered(path, low, i - 1);
      }
    }
  }

  /** Path.IsPathRooted on Unix. */
  predicate IsPathRooted(p: string)
  {
    |p| > 0 && p[0] == DirectorySeparator
  }

  /** Path.Combine(path1, path2) on Unix. */
  function Combine(path1: string, path2: string): (r: string)
    ensures path1 != "" && path2 != "" && !IsPathRooted(path2) ==> |r| > |path2| && r[|r| - |path2|..] == path2
    ensures IsPathRooted(path2) ==> r == path2
  {
    if |path2| == 0 then path1
    else if |path1| == 0 then path2
    else if IsPathRooted(path2) then path2
    else if path1[|path1| - 1] == DirectorySeparator || path2[0] == DirectorySeparator then path1 + path2
    else path1 + [DirectorySeparator] + path2
  }

  /** A directory name with exactly one separator at its end. */
  function AsDirectory(dir: string): (d: string)
    requires dir != ""
    ensures |d| >= |dir| && d[|d| - 1] == DirectorySeparator && d[..|dir|] == dir
  {
    if dir[|dir| - 1] == DirectorySeparator then dir else dir + [DirectorySeparator]
  }

  /** A relative name is placed inside the directory, after one separator. */
  lemma CombineRelative(dir: string, name: string)
    requires dir != "" && name != "" && !IsPathRooted(name)
    ensures Combine(dir, name) == AsDirectory(dir) + name
  {
  }

  /** Within one directory, distinct relative names give distinct paths. */
  lemma CombineInjective(dir: string, name1: string, name2: string)
    requires dir != "" && name1 != "" && name2 != ""
    requires !IsPathRooted(name1) && !IsPathRooted(name2)
    ensures Combine(dir, name1) == Combine(dir, name2) ==> name1 == name2
  {
    CombineRelative(dir, name1);
    CombineRelative(dir, name2);
    var d := AsDirectory(dir);
    assert (d + name1)[|d|..] == name1;
    assert (d + name2)[|d|..] == name2;
  }
}
