/**
  Selection of a station's recent data files from an object listing:
  keep the keys that contain one of the recent "YYYY-MM" month strings,
  sort them, and take the last one as the latest file.
*/
module KeySelect {
  import opened Wrappers

  /** Python's `<=` on str: lexicographic by code point, a prefix first. */
  predicate StrLe(a: string, b: string)
    decreases |a|
  {
    if |a| == 0 then true
    else if |b| == 0 then false
    else if a[0] != b[0] then a[0] < b[0]
    else StrLe(a[1..], b[1..])
  }

  lemma {:induction false} StrLeReflexive(a: string)
    ensures StrLe(a, a)
    decreases |a|
  {
    if |a| > 0 { StrLeReflexive(a[1..]); }
  }

  lemma {:induction false} StrLeTotal(a: string, b: string)
    ensures StrLe(a, b) || StrLe(b, a)
    decreases |a|
  {
    if |a| > 0 && |b| > 0 && a[0] == b[0] { StrLeTotal(a[1..], b[1..]); }
  }

  lemma {:induction false} StrLeTransitive(a: string, b: string, c: string)
    requires StrLe(a, b) && StrLe(b, c)
    ensures StrLe(a, c)
    decreases |a|
  {
    if |a| > 0 && |b| > 0 && |c| > 0 && a[0] == b[0] && b[0] == c[0] {
      StrLeTransitive(a[1..], b[1..], c[1..]);
    }
  }

  lemma {:induction false} StrLeAntisymmetric(a: string, b: string)
    requires StrLe(a, b) && StrLe(b, a)
    ensures a == b
    decreases |a|
  {
    if |a| > 0 {
      StrLeAntisymmetric(a[1..], b[1..]);
      assert a == [a[0]] + a[1..] && b == [b[0]] + b[1..];
    }
  }

  /** a is a prefix of b. */
  predicate IsPrefix(a: string, b: string) {
    |a| <= |b| && b[..|a|] == a
  }

  /** a and b agree before position i, where a has the smaller character. */
  predicate FirstDifferenceAt(a: string, b: string, i: int) {
    0 <= i < |a| && i < |b| && a[..i] == b[..i] && a[i] < b[i]
  }

  /**
    The recursive comparison is the textbook one: a <= b exactly when a is
    a prefix of b or a is smaller at the first position where they differ.
  */
  lemma {:induction false} StrLeIff(a: string, b: string)
    ensures StrLe(a, b) <==> IsPrefix(a, b) || exists i :: FirstDifferenceAt(a, b, i)
    decreases |a|
  {
    if |a| == 0 {
      assert IsPrefix(a, b);
    } else if |b| == 0 {
    } else if a[0] != b[0] {
      if a[0] < b[0] {
        assert FirstDifferenceAt(a, b, 0);
      }
    } else {
      var a', b' := a[1..], b[1..];
      StrLeIff(a', b');
      assert IsPrefix(a, b) <==> IsPrefix(a', b') by {
        assert a == [a[0]] + a';
        if |a| <= |b| { assert b[..|a|] == [b[0]] + b'[..|a'|]; }
      }
      if exists i :: FirstDifferenceAt(a', b', i) {
        var i :| FirstDifferenceAt(a', b', i);
        assert a[..i + 1] == [a[0]] + a'[..i] && b[..i + 1] == [b[0]] + b'[..i];
        assert FirstDifferenceAt(a, b, i + 1);
      }
      if exists i :: FirstDifferenceAt(a, b, i) {
        var i :| FirstDifferenceAt(a, b, i);
        assert i > 0;
        assert a'[..i - 1] == a[..i][1..] && b'[..i - 1] == b[..i][1..];
        assert FirstDifferenceAt(a', b', i - 1);
      }
    }
  }

  predicate SortedKeys(s: seq<string>) {
    forall i, j | 0 <= i < j < |s| :: StrLe(s[i], s[j])
  }

  /** Insert x into a sorted list before the first element it does not exceed. */
  function InsertKey(x: string, s: seq<string>): (r: seq<string>)
    ensures multiset(r) == multiset(s) + multiset{x}
    ensures |r| == |s| + 1
  {
    if |s| == 0 then [x]
    else if StrLe(x, s[0]) then [x] + s
    else
      assert s == [s[0]] + s[1..];
      [s[0]] + InsertKey(x, s[1..])
  }

  lemma {:induction false} InsertKeySorted(x: string, s: seq<string>)
    requires SortedKeys(s)
    ensures SortedKeys(InsertKey(x, s))
    decreases |s|
  {
    var r := InsertKey(x, s);
    if |s| == 0 {
    } else if StrLe(x, s[0]) {
      forall j | 1 <= j < |r| ensures StrLe(r[0], r[j]) {
        if j > 1 { StrLeTransitive(x, s[0], s[j - 1]); }
      }
    } else {
      InsertKeySorted(x, s[1..]);
      StrLeTotal(x, s[0]);
      forall k | k in s[1..] ensures StrLe(s[0], k) {
        var j :| 0 <= j < |s[1..]| && s[1..][j] == k;
        assert s[j + 1] == k;
      }
      InsertKeyBounded(s[0], x, s[1..]);
    }
  }

  /** A lower bound of x and of every element of s bounds every element after inserting x. */
  lemma {:induction false} InsertKeyBounded(lo: string, x: string, s: seq<string>)
    requires StrLe(lo, x) && forall k | k in s :: StrLe(lo, k)
    ensures forall k | k in InsertKey(x, s) :: StrLe(lo, k)
  {
    var r := InsertKey(x, s);
    forall k | k in r ensures StrLe(lo, k) {
      assert k in multiset(r);
      assert k == x || k in multiset(s);
    }
  }

  /** Python's `sorted` on a list of keys (an insertion sort). */
  function SortKeys(s: seq<string>): (r: seq<string>)
    ensures multiset(r) == multiset(s)
    ensures |r| == |s|
  {
    if |s| == 0 then []
    else
      assert s == [s[0]] + s[1..];
      InsertKey(s[0], SortKeys(s[1..]))
  }

  lemma {:induction false} SortKeysSorted(s: seq<string>)
    ensures SortedKeys(SortKeys(s))
  {
    if |s| > 0 {
      SortKeysSorted(s[1..]);
      InsertKeySorted(s[0], SortKeys(s[1..]));
    }
  }

  /** Two sorted lists with the same elements are equal: sorting has one answer. */
  lemma {:induction false} SortedUnique(a: seq<string>, b: seq<string>)
    requires SortedKeys(a) && SortedKeys(b) && multiset(a) == multiset(b)
    ensures a == b
    decreases |a|
  {
    if |a| > 0 {
      SortedHeadsEqual(a, b);
      TailMultiset(a);
      TailMultiset(b);
      SortedUnique(a[1..], b[1..]);
      assert a == [a[0]] + a[1..] && b == [b[0]] + b[1..];
    }
  }

  /** Two sorted lists with the same elements start with the same element. */
  lemma {:induction false} SortedHeadsEqual(a: seq<string>, b: seq<string>)
    requires SortedKeys(a) && SortedKeys(b) && multiset(a) == multiset(b) && |a| > 0
    ensures |b| > 0 && a[0] == b[0]
  {
    assert |b| == |multiset(b)| == |a|;
    assert a[0] in multiset(b) && b[0] in multiset(a);
    var i :| 0 <= i < |b| && b[i] == a[0];
    var j :| 0 <= j < |a| && a[j] == b[0];
    if i > 0 { assert StrLe(b[0], b[i]); } else { StrLeReflexive(b[0]); }
    if j > 0 { assert StrLe(a[0], a[j]); } else { StrLeReflexive(a[0]); }
    StrLeAntisymmetric(a[0], b[0]);
  }

  /** Dropping the head removes one copy of it. */
  lemma {:induction false} TailMultiset(a: seq<string>)
    requires |a| > 0
    ensures multiset(a[1..]) == multiset(a) - multiset{a[0]}
  {
    assert a == [a[0]] + a[1..];
  }

  /** s[i..i + |sub|] is sub. */
  predicate OccursAt(s: string, sub: string, i: int) {
    0 <= i && i + |sub| <= |s| && s[i..i + |sub|] == sub
  }

  /** Python's `sub in s` on strings. */
  predicate Contains(s: string, sub: string)
    decreases |s|
  {
    (|sub| <= |s| && s[..|sub|] == sub) || (|s| > 0 && Contains(s[1..], sub))
  }

  lemma {:induction false} ContainsIffOccurs(s: string, sub: string)
    ensures Contains(s, sub) <==> exists i :: OccursAt(s, sub, i)
    decreases |s|
  {
    if |sub| <= |s| && s[..|sub|] == sub {
      assert OccursAt(s, sub, 0);
    }
    if |s| > 0 {
      ContainsIffOccurs(s[1..], sub);
      assert (exists i :: OccursAt(s[1..], sub, i)) ==> exists i :: OccursAt(s, sub, i) by {
        if exists i :: OccursAt(s[1..], sub, i) {
          var i :| OccursAt(s[1..], sub, i);
          assert s[1..][i..i + |sub|] == s[i + 1..i + 1 + |sub|];
          assert OccursAt(s, sub, i + 1);
        }
      }
      assert forall i | i > 0 && OccursAt(s, sub, i) :: OccursAt(s[1..], sub, i - 1) by {
        forall i | i > 0 && OccursAt(s, sub, i) ensures OccursAt(s[1..], sub, i - 1) {
          assert s[1..][i - 1..i - 1 + |sub|] == s[i..i + |sub|];
        }
      }
    } else {
      if exists i :: OccursAt(s, sub, i) {
        var i :| OccursAt(s, sub, i);
        assert s[..|sub|] == sub;
      }
    }
  }

  /** `any(month in key for month in recent_months)`. */
  predicate IsRecent(key: string, recentMonths: set<string>) {
    exists m | m in recentMonths :: Contains(key, m)
  }

  /** A key is recent exactly when one of the month strings occurs somewhere in it. */
  lemma IsRecentIff(key: string, recentMonths: set<string>)
    ensures IsRecent(key, recentMonths) <==> exists m, i | m in recentMonths :: OccursAt(key, m, i)
  {
    forall m | m in recentMonths ensures Contains(key, m) <==> exists i :: OccursAt(key, m, i) {
      ContainsIffOccurs(key, m);
    }
  }

  /** The listed keys that mention a recent month, in listing order. */
  function MatchingKeys(keys: seq<string>, recentMonths: set<string>): (r: seq<string>)
    ensures forall k | k in r :: k in keys && IsRecent(k, recentMonths)
    ensures forall k | k in keys && IsRecent(k, recentMonths) :: k in r
  {
    if |keys| == 0 then []
    else
      var prefix := keys[..|keys| - 1];
      var last := keys[|keys| - 1];
      assert keys == prefix + [last];
      MatchingKeys(prefix, recentMonths) + (if IsRecent(last, recentMonths) then [last] else [])
  }

  /** The filter keeps every copy of a recent key and no copy of any other key. */
  lemma {:induction false} MatchingKeysCounts(keys: seq<string>, recentMonths: set<string>)
    ensures forall k :: multiset(MatchingKeys(keys, recentMonths))[k]
                        == if IsRecent(k, recentMonths) then multiset(keys)[k] else 0
  {
    if |keys| > 0 {
      var prefix := keys[..|keys| - 1];
      MatchingKeysCounts(prefix, recentMonths);
      assert keys == prefix + [keys[|keys| - 1]];
    }
  }

  /** The outcome of listing the station's prefix in the bucket. */
  datatype Listing =
    | Listed(keys: seq<string>)  // the response had a Contents entry
    | NoContents                  // the response had none
    | ListFailed                  // the listing call raised

  /**
    get_recent_files_for_station: the sorted survivors of the month filter,
    or the empty list when there is nothing listed or the listing failed.
  */
  method GetRecentFilesForStation(listing: Listing, recentMonths: set<string>) returns (files: seq<string>)
    ensures !listing.Listed? ==> files == []
    ensures listing.Listed? ==> files == SortKeys(MatchingKeys(listing.keys, recentMonths))
    ensures SortedKeys(files)
    ensures forall k :: k in files <==> listing.Listed? && k in listing.keys && IsRecent(k, recentMonths)
  {
    if !listing.Listed? {
      return [];
    }
    var keys := listing.keys;
    files := [];
    var i := 0;
    while i < |keys|
      invariant 0 <= i <= |keys|
      invariant files == MatchingKeys(keys[..i], recentMonths)
    {
      assert keys[..i + 1][..i] == keys[..i];
      var key := keys[i];
      if exists m | m in recentMonths :: Contains(key, m) {
        files := files + [key];
      }
      i := i + 1;
    }
    assert keys[..i] == keys;
    ghost var matching := files;
    files := SortKeys(files);
    SortKeysSorted(matching);
    forall k ensures k in files <==> k in matching {
      assert k in files <==> k in multiset(files);
      assert k in matching <==> k in multiset(matching);
    }
  }

  /** `recent_files[-1]`, or nothing when the list is empty. */
  function LatestFile(files: seq<string>): (latest: Option<string>)
    ensures latest.None? <==> |files| == 0
    ensures latest.Some? ==> latest.value in files
  {
    if |files| == 0 then None else Some(files[|files| - 1])
  }

  /** The last element of a sorted list is the greatest of its elements. */
  lemma LatestIsGreatest(files: seq<string>)
    requires SortedKeys(files) && |files| > 0
    ensures forall k | k in files :: StrLe(k, LatestFile(files).value)
  {
    var last := files[|files| - 1];
    forall k | k in files ensures StrLe(k, last) {
      var i :| 0 <= i < |files| && files[i] == k;
      if i == |files| - 1 { StrLeReflexive(k); }
    }
  }
}
