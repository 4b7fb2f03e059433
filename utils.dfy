/** Text helpers of the server (src/Utils.cpp and the filesystem predicates
    declared in include/Utils.hpp): word splitting, space skipping, trimming,
    lower-casing and the `%d` rendering of integers.

    `std::string` indices are `size_t`: positions are `nat`s and
    `std::string::npos` is NPOS, the largest 64-bit value, with size_t
    arithmetic wrapping modulo 2^64 where the source relies on it. */
module Utils {

  datatype Option<T> = None | Some(value: T)

  /** Concatenation regroups freely; the string-building proofs step
      through their pieces with it. */
  lemma Assoc<T>(a: seq<T>, b: seq<T>, c: seq<T>)
    ensures a + (b + c) == a + b + c
  {
  }

  /** std::string::npos. */
  const NPOS: nat := 0xFFFF_FFFF_FFFF_FFFF
  /** size_t arithmetic is taken modulo 2^64. */
  const SIZE_MOD: nat := 0x1_0000_0000_0000_0000

  /** The character `s[i]` of a const std::string: index |s| reads the
      terminating NUL. */
  function At(s: string, i: nat): char
    requires i <= |s|
  {
    if i < |s| then s[i] else '\0'
  }

  /** The C-string view of a character buffer: everything before its first NUL. */
  function UpToNul(s: seq<char>): (r: seq<char>)
    ensures |r| <= |s| && r == s[..|r|]
    ensures '\0' !in r
    ensures |r| < |s| ==> s[|r|] == '\0'
  {
    if s == [] || s[0] == '\0' then [] else [s[0]] + UpToNul(s[1..])
  }

  /** A NUL at index k with none before it ends the C string there. */
  lemma {:induction false} UpToNulAt(s: seq<char>, k: nat)
    requires k < |s| && s[k] == '\0' && '\0' !in s[..k]
    ensures UpToNul(s) == s[..k]
  {
    if k > 0 {
      assert s[0] in s[..k];
      assert s[1..][..k - 1] == s[1..k];
      assert '\0' !in s[1..][..k - 1] by {
        forall c | c in s[1..k] ensures c != '\0' {
          var j :| 0 <= j < k - 1 && s[1..k][j] == c;
          assert s[..k][j + 1] == c;
        }
      }
      UpToNulAt(s[1..], k - 1);
    }
  }

  /** A string without NUL is its own C-string view, whatever follows a NUL. */
  lemma {:induction false} UpToNulAppend(a: seq<char>, b: seq<char>)
    requires '\0' !in a && b != [] && b[0] == '\0'
    ensures UpToNul(a + b) == a
  {
    assert (a + b)[..|a|] == a;
    UpToNulAt(a + b, |a|);
  }

  /** A NUL right after `a` cuts the C string at or before the end of `a`. */
  lemma {:induction false} UpToNulBeforeNul(a: seq<char>, b: seq<char>)
    requires b != [] && b[0] == '\0'
    ensures UpToNul(a + b) == UpToNul(a)
  {
    if a != [] {
      assert (a + b)[1..] == a[1..] + b;
      UpToNulBeforeNul(a[1..], b);
    }
  }

  // ---------------------------------------------------------------------
  // Searching

  /** Index of the first `c` at or after `from`, or |s| when none remains:
      the reading of std::string::find(c, from) with npos taken as |s|. */
  function FindFrom(s: string, c: char, from: nat): (r: nat)
    requires from <= |s|
    ensures from <= r <= |s|
    ensures r < |s| ==> s[r] == c
    ensures forall k :: from <= k < r ==> s[k] != c
    decreases |s| - from
  {
    if from == |s| || s[from] == c then from else FindFrom(s, c, from + 1)
  }

  /** Index of the first non-space at or after `from`, or |s|. */
  function SkipFrom(s: string, from: nat): (r: nat)
    requires from <= |s|
    ensures from <= r <= |s|
    ensures r < |s| ==> s[r] != ' '
    ensures forall k :: from <= k < r ==> s[k] == ' '
    decreases |s| - from
  {
    if from == |s| || s[from] != ' ' then from else SkipFrom(s, from + 1)
  }

  /** A prefix that holds no `c` leaves the search to the rest of the string. */
  lemma {:induction false} FindFromConcat(a: string, b: string, c: char, from: nat)
    requires from <= |a|
    requires forall k :: from <= k < |a| ==> a[k] != c
    ensures FindFrom(a + b, c, from) == |a| + FindFrom(b, c, 0)
    decreases |a| - from
  {
    if from < |a| {
      FindFromConcat(a, b, c, from + 1);
    } else {
      FindFromShift(a, b, c, 0);
    }
  }

  lemma {:induction false} FindFromShift(a: string, b: string, c: char, k: nat)
    requires k <= |b|
    ensures FindFrom(a + b, c, |a| + k) == |a| + FindFrom(b, c, k)
    decreases |b| - k
  {
    if k < |b| && b[k] != c {
      assert (a + b)[|a| + k] == b[k];
      FindFromShift(a, b, c, k + 1);
    } else if k < |b| {
      assert (a + b)[|a| + k] == b[k];
    }
  }

  lemma {:induction false} SkipFromShift(a: string, b: string, k: nat)
    requires k <= |b|
    ensures SkipFrom(a + b, |a| + k) == |a| + SkipFrom(b, k)
    decreases |b| - k
  {
    if k < |b| {
      assert (a + b)[|a| + k] == b[k];
      if b[k] == ' ' {
        SkipFromShift(a, b, k + 1);
      }
    }
  }

  /** std::string::find(c, from): the first `c` at or after `from`, or NPOS. */
  function Find(s: string, c: char, from: nat): (r: nat)
    requires from <= |s| < NPOS
    ensures r == NPOS <==> c !in s[from..]
    ensures r != NPOS ==> from <= r < |s| && s[r] == c && c !in s[from..r]
  {
    if FindFrom(s, c, from) == |s| then NPOS else FindFrom(s, c, from)
  }

  /** getWord: the text from `pos` up to the next `delimiter`; `next` is the
      delimiter's index, or NPOS when no delimiter follows (src/Utils.cpp:24-31).
      std::string::substr throws when `pos` is past the end, hence the requires. */
  method GetWord(line: string, delimiter: char, pos: nat) returns (word: string, next: nat)
    requires pos <= |line| < NPOS
    ensures word == line[pos..FindFrom(line, delimiter, pos)]
    ensures delimiter !in word
    ensures next == (if FindFrom(line, delimiter, pos) == |line| then NPOS else FindFrom(line, delimiter, pos))
    ensures next == NPOS <==> delimiter !in line[pos..]
    ensures next != NPOS ==> pos <= next < |line| && line[next] == delimiter
  {
    var i := pos;
    while i < |line| && line[i] != delimiter
      invariant pos <= i <= |line|
      invariant FindFrom(line, delimiter, pos) == FindFrom(line, delimiter, i)
    {
      i := i + 1;
    }
    next := if i == |line| then NPOS else i;
    word := line[pos..i];
  }

  /** skipSpaces: advances `pos` over blanks and stops at the first
      non-blank, or at the terminating NUL (src/Utils.cpp:33-36).  Reading
      past |line| is undefined in C++, hence the requires. */
  method SkipSpaces(line: string, pos: nat) returns (next: nat)
    requires pos <= |line|
    ensures next == SkipFrom(line, pos)
  {
    next := pos;
    while At(line, next) == ' '
      invariant pos <= next <= |line|
      invariant SkipFrom(line, pos) == SkipFrom(line, next)
      decreases |line| - next
    {
      next := next + 1;
    }
  }

  // ---------------------------------------------------------------------
  // Trimming

  /** std::string::find_last_not_of(t, upto): the last index not past `upto`
      whose character is not in `t`, or NPOS; `upto` NPOS searches the whole
      string. */
  method FindLastNotOf(s: string, t: set<char>, upto: nat) returns (r: nat)
    requires |s| < NPOS
    ensures r == NPOS <==> forall k :: 0 <= k < |s| && k <= upto ==> s[k] in t
    ensures r != NPOS ==> r < |s| && r <= upto && s[r] !in t
                          && forall k :: r < k < |s| && k <= upto ==> s[k] in t
  {
    var i := if upto < |s| then upto + 1 else |s|;
    while i > 0 && s[i - 1] in t
      invariant 0 <= i <= |s| && i <= upto + 1
      invariant forall k :: i <= k < |s| && k <= upto ==> s[k] in t
    {
      i := i - 1;
    }
    r := if i == 0 then NPOS else i - 1;
  }

  /** std::string::find_first_not_of(t, from): the first index at or after
      `from` whose character is not in `t`, or NPOS. */
  method FindFirstNotOf(s: string, t: set<char>, from: nat) returns (r: nat)
    requires from <= |s| < NPOS
    ensures r == NPOS <==> forall k :: from <= k < |s| ==> s[k] in t
    ensures r != NPOS ==> from <= r < |s| && s[r] !in t && forall k :: from <= k < r ==> s[k] in t
  {
    var i := from;
    while i < |s| && s[i] in t
      invariant from <= i <= |s|
      invariant forall k :: from <= k < i ==> s[k] in t
    {
      i := i + 1;
    }
    r := if i == |s| then NPOS else i;
  }

  /** trim = ltrim(rtrim(s, t), t) (src/Utils.cpp:3-15).  rtrim erases from
      find_last_not_of(t) + 1, which wraps to 0 when every character is in
      `t`; ltrim erases the first find_first_not_of(t) characters, clamped
      to the length.  The result is a contiguous piece of `s` that neither
      begins nor ends with a character of `t`, and only characters of `t`
      were removed. */
  method Trim(s: string, t: set<char>) returns (r: string)
    requires |s| < NPOS
    ensures exists i, j :: 0 <= i <= j <= |s| && r == s[i..j]
                          && (forall k :: 0 <= k < i ==> s[k] in t)
                          && (forall k :: j <= k < |s| ==> s[k] in t)
    ensures r != [] ==> r[0] !in t && r[|r| - 1] !in t
    ensures r == [] <==> forall k :: 0 <= k < |s| ==> s[k] in t
  {
    // rtrim
    var last := FindLastNotOf(s, t, NPOS);
    var cut := (last + 1) % SIZE_MOD;
    var u := s[..cut];
    // ltrim
    var first := FindFirstNotOf(u, t, 0);
    var n := if first < |u| then first else |u|;
    r := u[n..];
    assert r == s[n..cut];
  }

  // ---------------------------------------------------------------------
  // Lower-casing

  /** tolower in the C locale. */
  function Lower(c: char): (r: char)
    ensures !('A' <= r <= 'Z')
    ensures !('A' <= c <= 'Z') ==> r == c
  {
    if 'A' <= c <= 'Z' then (c as int + 32) as char else c
  }

  /** The string with tolower applied to every character. */
  function LowerAll(s: string): string
  {
    seq(|s|, i requires 0 <= i < |s| => Lower(s[i]))
  }

  /** toLowerCase: rewrites each character with tolower, in place
      (src/Utils.cpp:17-22).  The length is kept, and the result is left
      unchanged by a second pass. */
  method ToLowerCase(s: string) returns (r: string)
    ensures r == LowerAll(s)
    ensures |r| == |s|
    ensures forall i :: 0 <= i < |s| ==> r[i] == Lower(s[i])
    ensures forall i :: 0 <= i < |r| ==> Lower(r[i]) == r[i]
  {
    r := s;
    var i := 0;
    while i < |s|
      invariant 0 <= i <= |s| && |r| == |s|
      invariant forall k :: 0 <= k < i ==> r[k] == Lower(s[k])
      invariant forall k :: i <= k < |s| ==> r[k] == s[k]
    {
      r := r[i := Lower(r[i])];
      i := i + 1;
    }
  }

  // ---------------------------------------------------------------------
  // Decimal rendering

  const INT_MIN: int := -0x8000_0000
  const INT_MAX: int := 0x7FFF_FFFF

  /** Conversion of a size_t to `int`: keeps the low 32 bits, two's complement. */
  function ToInt32(n: int): (r: int)
    ensures INT_MIN <= r <= INT_MAX
    ensures INT_MIN <= n <= INT_MAX ==> r == n
  {
    (n - INT_MIN) % 0x1_0000_0000 + INT_MIN
  }

  predicate IsDigit(c: char) { '0' <= c <= '9' }

  function DigitChar(d: nat): (c: char)
    requires d < 10
    ensures IsDigit(c)
  {
    ('0' as int + d) as char
  }

  /** The decimal digits of n, most significant first, with no leading zero. */
  function NatToString(n: nat): (r: string)
    ensures r != []
    ensures forall i :: 0 <= i < |r| ==> IsDigit(r[i])
    ensures |r| > 1 ==> r[0] != '0'
    ensures n < 10 <==> |r| == 1
    decreases n
  {
    if n < 10 then [DigitChar(n)] else NatToString(n / 10) + [DigitChar(n % 10)]
  }

  /** to_string(int): the `%d` rendering of a 32-bit int (src/Utils.cpp:40-44). */
  function IntToString(v: int): (r: string)
    requires INT_MIN <= v <= INT_MAX
  {
    if v < 0 then "-" + NatToString(-v) else NatToString(v)
  }

  function Pow10(k: nat): (r: nat)
    ensures r >= 1
  {
    if k == 0 then 1 else 10 * Pow10(k - 1)
  }

  /** A number below 10^k takes at most k digits. */
  lemma {:induction false} NatToStringLength(n: nat, k: nat)
    requires 1 <= k && n < Pow10(k)
    ensures |NatToString(n)| <= k
    decreases n
  {
    if n >= 10 {
      assert k >= 2;
      NatToStringLength(n / 10, k - 1);
    }
  }

  /** A `%d` rendering takes at most 11 characters and holds no NUL. */
  lemma IntToStringShort(v: int)
    requires INT_MIN <= v <= INT_MAX
    ensures |IntToString(v)| <= 11 && '\0' !in IntToString(v)
  {
    assert Pow10(10) == 10000000000;
    if v < 0 {
      NatToStringLength(-v, 10);
      assert IntToString(v)[1..] == NatToString(-v);
    } else {
      NatToStringLength(v, 10);
    }
  }

  /** The value of a string of decimal digits. */
  function DecimalValue(s: string): nat
    requires forall i :: 0 <= i < |s| ==> IsDigit(s[i])
  {
    if s == [] then 0
    else
      assert IsDigit(s[|s| - 1]);
      10 * DecimalValue(s[..|s| - 1]) + (s[|s| - 1] as int - '0' as int)
  }

  /** The value of a `%d` rendering: an optional minus sign, then digits. */
  function SignedValue(s: string): int
    requires s != []
    requires forall i :: (if s[0] == '-' then 1 else 0) <= i < |s| ==> IsDigit(s[i])
  {
    if s[0] == '-' then -(DecimalValue(s[1..]) as int) else DecimalValue(s)
  }

  lemma {:induction false} NatToStringRoundTrip(n: nat)
    ensures DecimalValue(NatToString(n)) == n
    decreases n
  {
    var r := NatToString(n);
    if n >= 10 {
      NatToStringRoundTrip(n / 10);
      assert r[..|r| - 1] == NatToString(n / 10);
    }
  }

  /** Reading the `%d` rendering back gives the number: to_string loses nothing. */
  lemma IntToStringRoundTrip(v: int)
    requires INT_MIN <= v <= INT_MAX
    ensures IntToString(v) != [] && (IntToString(v)[0] == '-' <==> v < 0)
    ensures SignedValue(IntToString(v)) == v
  {
    if v < 0 {
      NatToStringRoundTrip(-v);
      assert IntToString(v)[1..] == NatToString(-v);
    } else {
      NatToStringRoundTrip(v);
    }
  }

  // ---------------------------------------------------------------------
  // The filesystem, seen through resourceExists, isFile and isDirectory

  /** What stat(2) and its readers report for one path: a regular file with
      its contents (None when it cannot be opened for reading), a directory
      with its readdir enumeration (None when opendir fails), or anything else. */
  datatype Node = RegularFile(content: Option<string>, executable: bool)
                | Directory(entries: Option<seq<string>>)
                | Special

  /** A snapshot of the filesystem, keyed by path as the server spells it. */
  type FileSystem = map<string, Node>

  /** resourceExists; stat("") fails, so the empty path never exists. */
  predicate ResourceExists(fs: FileSystem, p: string) { p != [] && p in fs }

  predicate IsFile(fs: FileSystem, p: string) { ResourceExists(fs, p) && fs[p].RegularFile? }

  predicate IsDirectory(fs: FileSystem, p: string) { ResourceExists(fs, p) && fs[p].Directory? }

  predicate IsExecutableFile(fs: FileSystem, p: string) { IsFile(fs, p) && fs[p].executable }

  /** endsWith(str, end): `end` is a suffix of `str`. */
  predicate EndsWith(str: string, end: string) { |end| <= |str| && str[|str| - |end|..] == end }
}
