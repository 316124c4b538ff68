/**
 The few JavaScript string operations the chunk-id plugin relies on, with the
 semantics the language gives them: `indexOf`/`includes`, `endsWith`,
 `replace` with a string pattern (first occurrence only), `replace` with a
 one-character global regular expression (every occurrence), `split` followed
 by `pop`, `split`/`join` on a one-character separator, and the decimal
 rendering of a non-negative integer.
 */
module JsStrings {
  import opened Wrappers

  /** `pat` occurs in `s` starting at position `k`. */
  predicate OccursAt(s: string, pat: string, k: int) {
    0 <= k && k + |pat| <= |s| && s[k..k + |pat|] == pat
  }

  lemma OccursAtShift(s: string, pat: string, k: nat)
    requires |s| > 0
    ensures OccursAt(s[1..], pat, k) <==> OccursAt(s, pat, k + 1)
  {
    if 0 <= k && k + |pat| <= |s| - 1 {
      assert s[1..][k..k + |pat|] == s[k + 1..k + 1 + |pat|];
    }
  }

  /** The leftmost position at which `pat` occurs in `s` (`String.prototype.indexOf`). */
  function IndexOf(s: string, pat: string): (r: Option<nat>)
    ensures r.Some? ==> OccursAt(s, pat, r.value)
    ensures r.Some? ==> forall k :: 0 <= k < r.value ==> !OccursAt(s, pat, k)
    ensures r.None? ==> forall k :: !OccursAt(s, pat, k)
    decreases |s|
  {
    if |s| < |pat| then None
    else if s[..|pat|] == pat then Some(0)
    else
      var rest := IndexOf(s[1..], pat);
      assert forall k :: 1 <= k ==> (OccursAt(s, pat, k) <==> OccursAt(s[1..], pat, k - 1)) by {
        forall k | 1 <= k ensures OccursAt(s, pat, k) <==> OccursAt(s[1..], pat, k - 1) {
          OccursAtShift(s, pat, k - 1);
        }
      }
      assert !OccursAt(s, pat, 0);
      match rest
      case None => None
      case Some(k) => Some(k + 1)
  }

  /** `String.prototype.includes`. */
  predicate Includes(s: string, pat: string): (b: bool)
    ensures b <==> exists k :: OccursAt(s, pat, k)
  {
    IndexOf(s, pat).Some?
  }

  /** `String.prototype.endsWith`. */
  predicate EndsWith(s: string, suffix: string): (b: bool)
    ensures b <==> exists p :: s == p + suffix
  {
    if |suffix| <= |s| && s[|s| - |suffix|..] == suffix then
      assert s == s[..|s| - |suffix|] + suffix;
      true
    else
      false
  }

  /** `k` is the leftmost position at which `pat` occurs in `s`. */
  predicate FirstOccurrence(s: string, pat: string, k: int) {
    OccursAt(s, pat, k) && forall j :: 0 <= j < k ==> !OccursAt(s, pat, j)
  }

  /** A suffix holds no character its string does not. */
  lemma SuffixChars(s: string, suffix: string)
    requires EndsWith(s, suffix)
    ensures forall ch :: ch in suffix ==> ch in s
  {
    forall ch | ch in suffix ensures ch in s {
      var i :| 0 <= i < |suffix| && suffix[i] == ch;
      assert s[|s| - |suffix| + i] == ch;
    }
  }

  /** `s.replace(pat, rep)` with a string pattern: only the leftmost occurrence is replaced, the rest is kept. */
  function ReplaceFirst(s: string, pat: string, rep: string): (r: string)
    ensures !Includes(s, pat) ==> r == s
    ensures Includes(s, pat) ==> exists k :: FirstOccurrence(s, pat, k) && r == s[..k] + rep + s[k + |pat|..]
    ensures forall ch :: ch in r ==> ch in s || ch in rep
  {
    match IndexOf(s, pat)
    case None => s
    case Some(k) =>
      assert FirstOccurrence(s, pat, k);
      assert forall ch :: ch in s[..k] || ch in s[k + |pat|..] ==> ch in s;
      s[..k] + rep + s[k + |pat|..]
  }

  /** `s.replace(/C/g, b)` for a single character `a`: every occurrence is replaced. */
  function ReplaceAll(s: string, a: char, b: char): (r: string)
    ensures |r| == |s|
    ensures forall i :: 0 <= i < |s| ==> r[i] == if s[i] == a then b else s[i]
    ensures a != b ==> a !in r
    ensures forall ch :: ch in r ==> ch == b || (ch in s && ch != a)
  {
    if s == [] then []
    else [if s[0] == a then b else s[0]] + ReplaceAll(s[1..], a, b)
  }

  /**
   `s.split(d).pop()` for a non-empty separator `d`: `split` cuts `s` at the
   occurrences of `d` found scanning left to right, and `pop` keeps the last
   piece. The piece contains no `d`, and it is everything after one occurrence
   of `d`, or the whole of `s` when `d` does not occur.
   */
  function SplitPop(s: string, d: string): (r: string)
    requires d != []
    ensures !Includes(r, d)
    ensures !Includes(s, d) ==> r == s
    ensures Includes(s, d) ==> exists k :: OccursAt(s, d, k) && r == s[k + |d|..]
    decreases |s|
  {
    match IndexOf(s, d)
    case None => s
    case Some(k) =>
      var r := SplitPop(s[k + |d|..], d);
      SplitPopStep(s, d, k, s[k + |d|..], r);
      r
  }

  lemma SplitPopStep(s: string, d: string, k: nat, rest: string, r: string)
    requires d != [] && OccursAt(s, d, k) && rest == s[k + |d|..]
    requires !Includes(rest, d) ==> r == rest
    requires Includes(rest, d) ==> exists j :: OccursAt(rest, d, j) && r == rest[j + |d|..]
    ensures exists k' :: OccursAt(s, d, k') && r == s[k' + |d|..]
  {
    if Includes(rest, d) {
      var j :| OccursAt(rest, d, j) && r == rest[j + |d|..];
      assert rest[j..j + |d|] == s[k + |d| + j..k + |d| + j + |d|];
      assert OccursAt(s, d, k + |d| + j);
      assert r == s[k + |d| + j + |d|..];
    } else {
      assert OccursAt(s, d, k) && r == s[k + |d|..];
    }
  }

  /**
   When no two occurrences of `d` in `s` overlap, `s.split(d).pop()` is the
   text after the last occurrence.
   */
  lemma SplitPopAfterLast(s: string, d: string)
    requires d != [] && Includes(s, d)
    requires forall i, j :: OccursAt(s, d, i) && OccursAt(s, d, j) && i < j ==> i + |d| <= j
    ensures exists k :: OccursAt(s, d, k) && (forall j :: k < j ==> !OccursAt(s, d, j)) && SplitPop(s, d) == s[k + |d|..]
  {
    var r := SplitPop(s, d);
    var k :| OccursAt(s, d, k) && r == s[k + |d|..];
    forall j | k < j ensures !OccursAt(s, d, j) {
      if k + |d| <= j {
        OccursAfterCut(s, d, k + |d|, j);
      }
    }
  }

  lemma OccursAfterCut(s: string, pat: string, m: nat, j: int)
    requires m <= j
    ensures OccursAt(s, pat, j) ==> OccursAt(s[m..], pat, j - m)
  {
    if j + |pat| <= |s| {
      assert s[m..][j - m..j - m + |pat|] == s[j..j + |pat|];
    }
  }

  /** `s.split(c)` for a one-character separator: never empty, no piece holds `c`, and joining restores `s`. */
  function Split(s: string, c: char): (r: seq<string>)
    ensures |r| >= 1
    ensures forall i :: 0 <= i < |r| ==> c !in r[i]
    ensures Join(r, c) == s
    decreases |s|
  {
    if s == [] then [""]
    else if s[0] == c then
      var rest := Split(s[1..], c);
      assert s == [c] + s[1..];
      [""] + rest
    else
      var rest := Split(s[1..], c);
      var r := [[s[0]] + rest[0]] + rest[1..];
      assert Join(r, c) == s by {
        if |rest| == 1 {
          assert s == [s[0]] + s[1..];
        } else {
          assert r[1..] == rest[1..];
          assert s == [s[0]] + s[1..];
        }
      }
      r
  }

  /** `pieces.join(c)`: the pieces with one `c` between neighbours (`[].join(c)` is empty). */
  function Join(pieces: seq<string>, c: char): (r: string)
    ensures forall ch :: ch in r ==> ch == c || exists i :: 0 <= i < |pieces| && ch in pieces[i]
    ensures |pieces| >= 2 ==> c in r
    decreases |pieces|
  {
    if |pieces| == 0 then ""
    else if |pieces| == 1 then pieces[0]
    else pieces[0] + [c] + Join(pieces[1..], c)
  }

  /** Cutting a joined string at `c` gives back the pieces, when no piece holds `c`. */
  lemma {:induction false} SplitJoin(pieces: seq<string>, c: char)
    requires |pieces| >= 1
    requires forall i :: 0 <= i < |pieces| ==> c !in pieces[i]
    ensures Split(Join(pieces, c), c) == pieces
    decreases |pieces|, |pieces[0]|
  {
    var p := pieces[0];
    if |pieces| == 1 {
      SplitNoSeparator(p, c);
    } else if p == [] {
      var s := Join(pieces, c);
      assert s == [c] + Join(pieces[1..], c);
      assert s[1..] == Join(pieces[1..], c);
      SplitJoin(pieces[1..], c);
      assert Split(s, c) == [""] + pieces[1..];
    } else {
      var s := Join(pieces, c);
      var shorter := [p[1..]] + pieces[1..];
      assert shorter[1..] == pieces[1..];
      assert forall i :: 0 <= i < |shorter| ==> c !in shorter[i] by {
        assert forall ch :: ch in p[1..] ==> ch in p;
      }
      assert p[0] != c by { assert p[0] in p; }
      assert s == [p[0]] + Join(shorter, c) by {
        assert p == [p[0]] + p[1..];
      }
      assert s[1..] == Join(shorter, c);
      SplitJoin(shorter, c);
      assert [p[0]] + p[1..] == p;
    }
  }

  lemma SplitNoSeparator(s: string, c: char)
    requires c !in s
    ensures Split(s, c) == [s]
    decreases |s|
  {
    if s != [] {
      assert s[0] in s;
      assert forall ch :: ch in s[1..] ==> ch in s;
      SplitNoSeparator(s[1..], c);
      assert [s[0]] + s[1..] == s;
    }
  }

  /** Joining the last pieces of a list gives a suffix of joining all of them. */
  lemma {:induction false} JoinSuffix(pieces: seq<string>, c: char, k: nat)
    requires k < |pieces|
    ensures EndsWith(Join(pieces, c), Join(pieces[k..], c))
    decreases k
  {
    if k > 0 {
      JoinSuffix(pieces[1..], c, k - 1);
      assert pieces[1..][k - 1..] == pieces[k..];
    }
  }

  /** The last pieces of a list of separator-free pieces rejoin to a suffix that splits back into them. */
  lemma JoinLastPieces(pieces: seq<string>, k: nat, c: char)
    requires k < |pieces|
    requires forall i :: 0 <= i < |pieces| ==> c !in pieces[i]
    ensures EndsWith(Join(pieces, c), Join(pieces[k..], c))
    ensures Split(Join(pieces[k..], c), c) == pieces[k..]
  {
    JoinSuffix(pieces, c, k);
    assert forall i :: 0 <= i < |pieces[k..]| ==> pieces[k..][i] == pieces[k + i];
    SplitJoin(pieces[k..], c);
  }

  predicate IsDigit(ch: char) {
    '0' as int <= ch as int <= '9' as int
  }

  function DigitChar(d: nat): (ch: char)
    requires d < 10
    ensures IsDigit(ch)
  {
    ('0' as int + d) as char
  }

  /** The decimal rendering of `n`, as JavaScript produces it when a number is concatenated to a string. */
  function NatToString(n: nat): (r: string)
    ensures |r| >= 1
    ensures r[0] == '0' <==> n == 0
    ensures r[0] == '0' ==> |r| == 1
    ensures forall i :: 0 <= i < |r| ==> IsDigit(r[i])
    decreases n
  {
    if n < 10 then [DigitChar(n)] else NatToString(n / 10) + [DigitChar(n % 10)]
  }

  /** Reads a string of decimal digits back as a number. */
  function ParseDigits(s: string): nat
    requires forall i :: 0 <= i < |s| ==> IsDigit(s[i])
    decreases |s|
  {
    if s == [] then 0
    else
      var last := s[|s| - 1];
      assert IsDigit(last);
      10 * ParseDigits(s[..|s| - 1]) + (last as int - '0' as int)
  }

  /** Reading the rendering of `n` back gives `n`. */
  lemma {:induction false} ParseNatToString(n: nat)
    ensures ParseDigits(NatToString(n)) == n
    decreases n
  {
    var s := NatToString(n);
    if n >= 10 {
      ParseNatToString(n / 10);
      assert s[..|s| - 1] == NatToString(n / 10);
    }
  }

  /** Distinct numbers render as distinct strings. */
  lemma NatToStringInjective(m: nat, n: nat)
    requires NatToString(m) == NatToString(n)
    ensures m == n
  {
    ParseNatToString(m);
    ParseNatToString(n);
  }
}
