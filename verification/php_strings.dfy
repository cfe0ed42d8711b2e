/** The PHP string built-ins the router relies on, over `string` = `seq<char>`:
    `strtolower` (ASCII), `explode('/', ...)` with and without a limit, its
    inverse `implode('/', ...)`, `trim`/`ltrim`/`rtrim` of one character, and
    removal of the first occurrence of a literal substring. */
module PhpStrings {

  import opened Results

  /** The segment separator of URIs, paths and patterns. */
  const Sep: char := '/'

  // ---------------------------------------------------------------------------
  // strtolower

  predicate IsUpperChar(c: char) {
    'A' <= c <= 'Z'
  }

  /** A string without ASCII capitals: what `strtolower` produces. */
  predicate IsLower(s: string) {
    forall i :: 0 <= i < |s| ==> !IsUpperChar(s[i])
  }

  function LowerChar(c: char): (d: char)
    ensures !IsUpperChar(d)
    ensures IsUpperChar(c) ==> d as int == c as int + ('a' as int - 'A' as int)
    ensures !IsUpperChar(c) ==> d == c
  {
    if IsUpperChar(c) then (c as int + ('a' as int - 'A' as int)) as char else c
  }

  /** `strtolower`: maps A-Z to a-z and leaves every other character alone. */
  function Lower(s: string): (r: string)
    ensures |r| == |s|
    ensures IsLower(r)
    ensures forall i :: 0 <= i < |s| ==> r[i] == LowerChar(s[i])
  {
    seq(|s|, i requires 0 <= i < |s| => LowerChar(s[i]))
  }

  /** Lower-casing is idempotent, so lower-casing an already lower-cased
      path or pattern changes nothing. */
  lemma LowerOfLower(s: string)
    requires IsLower(s)
    ensures Lower(s) == s
  {
  }

  // ---------------------------------------------------------------------------
  // explode / implode

  /** `implode('/', parts)`. */
  function Join(parts: seq<string>): string
  {
    if |parts| == 0 then ""
    else if |parts| == 1 then parts[0]
    else parts[0] + [Sep] + Join(parts[1..])
  }

  /** `explode('/', s)`: keeps empty segments, and "" splits to [""].
      Every segment is separator-free, and the first segment is empty
      exactly when `s` is empty or starts with the separator; `JoinSplit`
      shows that imploding the segments gives `s` back. */
  function Split(s: string): (parts: seq<string>)
    ensures |parts| >= 1
    ensures forall k :: 0 <= k < |parts| ==> Sep !in parts[k]
    ensures parts[0] == "" <==> (s == "" || s[0] == Sep)
    decreases |s|
  {
    if |s| == 0 then [""]
    else
      var rest := Split(s[1..]);
      if s[0] == Sep then
        assert ([""] + rest)[1..] == rest;
        [""] + rest
      else
        var parts := [[s[0]] + rest[0]] + rest[1..];
        assert parts[1..] == rest[1..];
        parts
  }

  /** Round trip: imploding the segments of `s` gives `s` back. */
  lemma {:induction false} JoinSplit(s: string)
    ensures Join(Split(s)) == s
    decreases |s|
  {
    if |s| > 0 {
      var rest := Split(s[1..]);
      JoinSplit(s[1..]);
      assert [s[0]] + s[1..] == s;
      if s[0] == Sep {
        assert Split(s) == [""] + rest by {
          assert ([""] + rest)[1..] == rest;
        }
        assert Join([""] + rest) == [Sep] + Join(rest) by {
          assert ([""] + rest)[1..] == rest;
        }
      } else {
        var parts := [[s[0]] + rest[0]] + rest[1..];
        assert Split(s) == parts by {
          assert parts[1..] == rest[1..];
        }
        assert Join(parts) == [s[0]] + Join(rest) by {
          assert parts[1..] == rest[1..];
          if |rest| > 1 {
            assert Join(rest) == rest[0] + [Sep] + Join(rest[1..]);
            assert Join(parts) == ([s[0]] + rest[0]) + [Sep] + Join(rest[1..]);
          }
        }
      }
    }
  }

  /** A string without a separator explodes to itself alone. */
  lemma {:induction false} SplitNoSep(a: string)
    requires Sep !in a
    ensures Split(a) == [a]
    decreases |a|
  {
    if |a| > 0 {
      assert Sep !in a[1..];
      SplitNoSep(a[1..]);
      assert [a[0]] + a[1..] == a;
    }
  }

  /** Exploding `a/rest` for a separator-free `a` yields `a` followed by the
      segments of `rest`. */
  lemma {:induction false} SplitCons(a: string, rest: string)
    requires Sep !in a
    ensures Split(a + [Sep] + rest) == [a] + Split(rest)
    decreases |a|
  {
    var s := a + [Sep] + rest;
    if |a| == 0 {
      assert s[1..] == rest;
    } else {
      assert s[1..] == a[1..] + [Sep] + rest;
      assert Sep !in a[1..];
      SplitCons(a[1..], rest);
      assert [a[0]] + a[1..] == a;
    }
  }

  /** Round trip: exploding the implosion of separator-free segments gives
      the segments back (the converse of `Split`'s third postcondition). */
  lemma {:induction false} SplitJoin(parts: seq<string>)
    requires |parts| >= 1
    requires forall k :: 0 <= k < |parts| ==> Sep !in parts[k]
    ensures Split(Join(parts)) == parts
    decreases |parts|
  {
    if |parts| == 1 {
      SplitNoSep(parts[0]);
    } else {
      SplitJoin(parts[1..]);
      SplitCons(parts[0], Join(parts[1..]));
      assert [parts[0]] + parts[1..] == parts;
    }
  }

  /** `explode` is injective: two strings with the same segments are equal. */
  lemma SplitInjective(s: string, t: string)
    requires Split(s) == Split(t)
    ensures s == t
  {
    JoinSplit(s);
    JoinSplit(t);
  }

  /** Imploding a prefix of the segments followed by the implosion of the
      rest gives the implosion of all of them. */
  lemma {:induction false} JoinSplitAt(parts: seq<string>, i: nat)
    requires i < |parts|
    ensures Join(parts[..i] + [Join(parts[i..])]) == Join(parts)
    decreases i
  {
    if i > 0 {
      JoinSplitAt(parts[1..], i - 1);
      assert parts[1..][..i - 1] == parts[1..i];
      assert parts[1..][i - 1..] == parts[i..];
      var xs := parts[..i] + [Join(parts[i..])];
      assert xs[1..] == parts[1..i] + [Join(parts[i..])];
      assert xs[0] == parts[0];
    } else {
      assert parts[..0] + [Join(parts[0..])] == [Join(parts)];
      assert parts[0..] == parts;
    }
  }

  /** Imploding two or more segments puts a separator into the result. */
  lemma JoinHasSep(parts: seq<string>)
    requires |parts| >= 2
    ensures Sep in Join(parts)
  {
    assert Join(parts)[|parts[0]|] == Sep;
  }

  function Max1(n: nat): nat {
    if n == 0 then 1 else n
  }

  /** `explode('/', s, limit)` with a non-negative limit (0 acts as 1): at
      most `limit` segments, the last one holding the unsplit remainder. */
  function SplitLimit(s: string, limit: nat): (parts: seq<string>)
    ensures 1 <= |parts| <= Max1(limit)
    ensures Join(parts) == s
    ensures |Split(s)| <= Max1(limit) ==> parts == Split(s)
    ensures |Split(s)| > Max1(limit) ==> |parts| == Max1(limit) && Sep in parts[|parts| - 1]
    ensures forall k :: 0 <= k < |parts| - 1 ==> parts[k] == Split(s)[k]
  {
    var all := Split(s);
    var m := Max1(limit);
    JoinSplit(s);
    if |all| <= m then all
    else
      JoinSplitAt(all, m - 1);
      JoinHasSep(all[m - 1..]);
      all[..m - 1] + [Join(all[m - 1..])]
  }

  // ---------------------------------------------------------------------------
  // trim / ltrim / rtrim with a single character list

  /** `ltrim(s, c)`: the suffix of `s` left after dropping every leading `c`. */
  function LTrim(s: string, c: char): (r: string)
    ensures |r| <= |s| && r == s[|s| - |r|..]
    ensures forall i :: 0 <= i < |s| - |r| ==> s[i] == c
    ensures r == [] || r[0] != c
    decreases |s|
  {
    if |s| > 0 && s[0] == c then
      var r := LTrim(s[1..], c);
      assert forall i :: 1 <= i < |s| - |r| ==> s[i] == s[1..][i - 1];
      r
    else s
  }

  /** `rtrim(s, c)`: the prefix of `s` left after dropping every trailing `c`. */
  function RTrim(s: string, c: char): (r: string)
    ensures |r| <= |s| && r == s[..|r|]
    ensures forall i :: |r| <= i < |s| ==> s[i] == c
    ensures r == [] || r[|r| - 1] != c
    decreases |s|
  {
    if |s| > 0 && s[|s| - 1] == c then
      var r := RTrim(s[..|s| - 1], c);
      assert forall i :: |r| <= i < |s| - 1 ==> s[i] == s[..|s| - 1][i];
      r
    else s
  }

  /** Neither the first nor the last character is `c`. */
  predicate Unframed(s: string, c: char) {
    s == [] || (s[0] != c && s[|s| - 1] != c)
  }

  /** `trim(s, c)`: `s` with every leading and trailing `c` removed. */
  function Trim(s: string, c: char): (r: string)
    ensures Unframed(r, c)
  {
    RTrim(LTrim(s, c), c)
  }

  /** `ltrim` skips a leading `c` and stops at anything else. */
  lemma LTrimStep(s: string, c: char)
    ensures LTrim([c] + s, c) == LTrim(s, c)
    ensures s == [] || s[0] != c ==> LTrim(s, c) == s
  {
    assert ([c] + s)[1..] == s;
  }

  /** `rtrim` drops a trailing `c` and stops at anything else. */
  lemma RTrimStep(s: string, c: char)
    ensures RTrim(s + [c], c) == RTrim(s, c)
    ensures s == [] || s[|s| - 1] != c ==> RTrim(s, c) == s
  {
    assert (s + [c])[..|s|] == s;
  }

  /** Trimming a string framed by one `c` on each side gives back the
      string, when it neither starts nor ends with `c`. */
  lemma TrimFramed(s: string, c: char)
    requires s != [] && s[0] != c && s[|s| - 1] != c
    ensures Trim([c] + s + [c], c) == s
  {
    assert [c] + s + [c] == [c] + (s + [c]);
    LTrimStep(s + [c], c);
    assert (s + [c])[0] == s[0];
    RTrimStep(s, c);
  }

  /** Every suffix of a lower-case string is lower-case. */
  lemma LowerSuffix(s: string, k: nat)
    requires IsLower(s) && k <= |s|
    ensures IsLower(s[k..])
  {
    forall i | 0 <= i < |s| - k
      ensures !IsUpperChar(s[k..][i])
    {
      assert s[k..][i] == s[k + i];
    }
  }

  /** `strtolower` leaves `/` alone and never produces it from another
      character, so a string that neither starts nor ends with `/` keeps
      that property. */
  lemma LowerKeepsEnds(s: string)
    requires Unframed(s, Sep)
    ensures Unframed(Lower(s), Sep)
  {
    if s != [] {
      var t := Lower(s);
      assert t[0] == LowerChar(s[0]);
      assert t[|t| - 1] == LowerChar(s[|s| - 1]);
    }
  }

  /** `strtolower` works character by character, so it distributes over
      concatenation. */
  lemma LowerConcat(a: string, b: string)
    ensures Lower(a + b) == Lower(a) + Lower(b)
  {
  }

  /** `r` is the slice of `s` starting at `a`, and everything of `s`
      before and after that slice is `c`. */
  predicate SliceAmid(s: string, c: char, a: nat, r: string) {
    && a + |r| <= |s| && r == s[a..a + |r|]
    && (forall i :: 0 <= i < a ==> s[i] == c)
    && (forall i :: a + |r| <= i < |s| ==> s[i] == c)
  }

  /** What `Trim` keeps is the slice of `s` that starts where `ltrim` stops,
      and everything cut off on either side of it is `c`. */
  lemma TrimSlice(s: string, c: char)
    ensures SliceAmid(s, c, |s| - |LTrim(s, c)|, Trim(s, c))
  {
    var l := LTrim(s, c);
    var r := Trim(s, c);
    var a := |s| - |l|;
    assert r == RTrim(l, c);
    assert a + |r| <= |s| && r == s[a..a + |r|] by {
      assert l == s[a..] && r == l[..|r|];
    }
    assert forall i :: 0 <= i < a ==> s[i] == c;
    assert forall i :: a + |r| <= i < |s| ==> s[i] == c by {
      assert l == s[a..];
      forall i | a + |r| <= i < |s|
        ensures s[i] == c
      {
        assert s[i] == l[i - a];
      }
    }
    assert SliceAmid(s, c, a, r);
  }

  // ---------------------------------------------------------------------------
  // first-occurrence removal (preg_replace with limit 1 on a literal)

  /** `m` occurs in `s` starting at index `k`. */
  predicate OccursAt(s: string, m: string, k: nat) {
    k + |m| <= |s| && s[k..k + |m|] == m
  }

  /** The first index at or after `k` where `m` occurs, if any. */
  function FindFrom(s: string, m: string, k: nat): (r: Option<nat>)
    ensures r.Some? ==> k <= r.value && OccursAt(s, m, r.value)
                        && forall j :: k <= j < r.value ==> !OccursAt(s, m, j)
    ensures r.None? ==> forall j: nat :: k <= j ==> !OccursAt(s, m, j)
    decreases |s| - k
  {
    if k + |m| > |s| then None
    else if s[k..k + |m|] == m then Some(k)
    else FindFrom(s, m, k + 1)
  }

  /** `k` is the first index where `m` occurs in `s`. */
  predicate FirstAt(s: string, m: string, k: nat) {
    OccursAt(s, m, k) && forall j :: 0 <= j < k ==> !OccursAt(s, m, j)
  }

  /** Removes the first occurrence of `m` from `s`; `s` itself when `m` does
      not occur. */
  function RemoveFirst(s: string, m: string): (r: string)
    ensures (forall k: nat :: !OccursAt(s, m, k)) ==> r == s
    ensures forall k: nat :: FirstAt(s, m, k) ==> r == s[..k] + s[k + |m|..]
  {
    match FindFrom(s, m, 0)
    case None => s
    case Some(k) =>
      assert forall k' : nat :: FirstAt(s, m, k') ==> k' == k by {
        forall k' : nat | FirstAt(s, m, k')
          ensures k' == k
        {
          assert k' >= k && k >= k' by {
            assert OccursAt(s, m, k);
          }
        }
      }
      s[..k] + s[k + |m|..]
  }

  /** Cutting a piece out of a lower-case string leaves it lower-case. */
  lemma LowerCut(s: string, k: nat, n: nat)
    requires IsLower(s) && k + n <= |s|
    ensures IsLower(s[..k] + s[k + n..])
  {
    var r := s[..k] + s[k + n..];
    forall i | 0 <= i < |r|
      ensures !IsUpperChar(r[i])
    {
      assert r[i] == if i < k then s[i] else s[i + n];
    }
  }

  /** Removing a substring from a lower-case string leaves it lower-case. */
  lemma RemoveFirstLower(s: string, m: string)
    requires IsLower(s)
    ensures IsLower(RemoveFirst(s, m))
  {
    match FindFrom(s, m, 0)
    case None =>
      assert RemoveFirst(s, m) == s;
    case Some(k) =>
      assert FirstAt(s, m, k);
      LowerCut(s, k, |m|);
  }
}
