/** Prefix scans of both storage engines in kinetic-storage/src/lib.rs, over a table enumerated in key order. */
module StorageScan {
  import opened ByteStrings
  import opened Results
  import opened StorageLog

  datatype Entry = Entry(key: Bytes, value: Bytes)

  /** Lexicographic byte order, the key order of `BTreeMap<Vec<u8>, _>` and of redb byte tables. */
  predicate Less(a: Bytes, b: Bytes) {
    if |b| == 0 then false
    else if |a| == 0 then true
    else a[0] < b[0] || (a[0] == b[0] && Less(a[1..], b[1..]))
  }

  predicate StartsWith(k: Bytes, prefix: Bytes) { |prefix| <= |k| && k[..|prefix|] == prefix }

  ghost predicate Ordered(t: seq<Entry>) {
    forall i, j :: 0 <= i < j < |t| ==> Less(t[i].key, t[j].key)
  }

  /** `t` lists the entries of `db`, each once, in key order. */
  ghost predicate Enumerates(t: seq<Entry>, db: Db) {
    && Ordered(t)
    && (forall i :: 0 <= i < |t| ==> t[i].key in db && db[t[i].key] == t[i].value)
    && (forall k :: k in db ==> exists i :: 0 <= i < |t| && t[i].key == k)
  }

  lemma {:induction false} LessIrreflexive(a: Bytes)
    ensures !Less(a, a)
  {
    if |a| > 0 {
      LessIrreflexive(a[1..]);
    }
  }

  lemma {:induction false} LessTransitive(a: Bytes, b: Bytes, c: Bytes)
    requires Less(a, b) && Less(b, c)
    ensures Less(a, c)
  {
    if |a| > 0 && a[0] == b[0] && b[0] == c[0] {
      LessTransitive(a[1..], b[1..], c[1..]);
    }
  }

  /** A key with the prefix is never below the prefix itself. */
  lemma {:induction false} MatchNotBelow(k: Bytes, prefix: Bytes)
    requires StartsWith(k, prefix)
    ensures !Less(k, prefix)
  {
    if |prefix| > 0 {
      assert k[1..][..|prefix| - 1] == k[..|prefix|][1..];
      MatchNotBelow(k[1..], prefix[1..]);
    }
  }

  /** Once past the prefix without matching it, no larger key matches: stopping early loses nothing. */
  lemma {:induction false} NoMatchBeyondGap(prefix: Bytes, k: Bytes, k': Bytes)
    requires !Less(k, prefix) && !StartsWith(k, prefix) && Less(k, k')
    ensures !StartsWith(k', prefix)
  {
    if |prefix| > 0 && StartsWith(k', prefix) {
      StartsWithTail(k', prefix);
      if |k| > 0 && k[0] == prefix[0] {
        StartsWithTail(k, prefix);
        NoMatchBeyondGap(prefix[1..], k[1..], k'[1..]);
      }
      assert false;
    }
  }

  lemma StartsWithTail(k: Bytes, prefix: Bytes)
    requires |k| > 0 && |prefix| > 0
    ensures StartsWith(k, prefix) <==> k[0] == prefix[0] && StartsWith(k[1..], prefix[1..])
  {
    if |prefix| <= |k| {
      assert k[..|prefix|] == [k[0]] + k[1..][..|prefix| - 1];
      assert prefix == [prefix[0]] + prefix[1..];
      assert k[..|prefix|][1..] == k[1..][..|prefix| - 1];
    }
  }

  function Matching(t: seq<Entry>, prefix: Bytes): seq<Entry> {
    if |t| == 0 then []
    else
      var front, last := Matching(t[..|t| - 1], prefix), t[|t| - 1];
      if StartsWith(last.key, prefix) then front + [last] else front
  }

  function FirstN(s: seq<Entry>, limit: Option<nat>): seq<Entry> {
    if limit.Some? && limit.value < |s| then s[..limit.value] else s
  }

  /** The first `limit` entries, or all of them when there are fewer or no limit is given. */
  lemma FirstNIsPrefix(s: seq<Entry>, limit: Option<nat>)
    ensures var r := FirstN(s, limit);
            && |r| == (if limit.Some? && limit.value < |s| then limit.value else |s|)
            && forall i :: 0 <= i < |r| ==> r[i] == s[i]
  {
  }

  /** A key starts with a prefix exactly when it is the prefix followed by something. */
  lemma StartsWithExactlyWhen(k: Bytes, prefix: Bytes)
    ensures StartsWith(k, prefix) <==> exists rest: Bytes :: k == prefix + rest
  {
    if StartsWith(k, prefix) {
      assert k == prefix + k[|prefix|..];
    }
  }

  /** The keys agree before index i and part there: one ends, or has the smaller byte. */
  ghost predicate PartsAt(a: Bytes, b: Bytes, i: int) {
    && 0 <= i <= |a| && i < |b|
    && (forall j :: 0 <= j < i ==> a[j] == b[j])
    && (i == |a| || a[i] < b[i])
  }

  /** The order is the lexicographic one. */
  lemma {:induction false} LessIsLexicographic(a: Bytes, b: Bytes)
    ensures Less(a, b) <==> exists i :: PartsAt(a, b, i)
    decreases |a|
  {
    if |a| == 0 || |b| == 0 || a[0] != b[0] {
      if Less(a, b) {
        assert PartsAt(a, b, 0);
      }
    } else {
      LessIsLexicographic(a[1..], b[1..]);
      if i :| PartsAt(a[1..], b[1..], i) {
        PartsOneOn(a, b, i + 1);
      }
      if i :| PartsAt(a, b, i) {
        PartsOneOn(a, b, i);
      }
    }
  }

  lemma PartsOneOn(a: Bytes, b: Bytes, i: int)
    requires |a| > 0 && |b| > 0 && a[0] == b[0]
    ensures PartsAt(a, b, i) <==> PartsAt(a[1..], b[1..], i - 1)
  {
    if PartsAt(a[1..], b[1..], i - 1) {
      forall j | 0 <= j < i
        ensures a[j] == b[j]
      {
        assert j > 0 ==> a[j] == a[1..][j - 1] && b[j] == b[1..][j - 1];
      }
    }
  }

  lemma {:induction false} LessTotal(a: Bytes, b: Bytes)
    requires a != b
    ensures Less(a, b) || Less(b, a)
    decreases |a|
  {
    if |a| > 0 && |b| > 0 && a[0] == b[0] {
      assert a == [a[0]] + a[1..] && b == [b[0]] + b[1..];
      LessTotal(a[1..], b[1..]);
    }
  }

  /** The matching entries are a contiguous run of the table. */
  lemma {:induction false} MatchingIsRun(t: seq<Entry>, prefix: Bytes, lo: nat, hi: nat)
    requires lo <= hi <= |t|
    requires forall i :: 0 <= i < lo ==> !StartsWith(t[i].key, prefix)
    requires forall i :: lo <= i < hi ==> StartsWith(t[i].key, prefix)
    requires forall i :: hi <= i < |t| ==> !StartsWith(t[i].key, prefix)
    ensures Matching(t, prefix) == t[lo..hi]
    decreases |t|
  {
    hide StartsWith;
    hide Matching;
    MatchingStep(t, prefix);
    if |t| > 0 {
      var n := |t| - 1;
      var front := t[..n];
      assert forall i :: 0 <= i < n ==> front[i] == t[i];
      if hi == |t| && lo < |t| {
        MatchingIsRun(front, prefix, lo, n);
        SliceOfPrefix(t, n, lo, n);
        assert t[lo..hi] == t[lo..n] + [t[n]];
      } else if hi == |t| {
        MatchingIsRun(front, prefix, n, n);
      } else {
        MatchingIsRun(front, prefix, lo, hi);
        SliceOfPrefix(t, n, lo, hi);
      }
    }
  }

  lemma MatchingStep(t: seq<Entry>, prefix: Bytes)
    ensures |t| == 0 ==> Matching(t, prefix) == []
    ensures |t| > 0 ==>
              var front, last := Matching(t[..|t| - 1], prefix), t[|t| - 1];
              Matching(t, prefix) == if StartsWith(last.key, prefix) then front + [last] else front
  {
  }

  /** Where `range(prefix..)` starts. */
  ghost predicate IsLowerBound(t: seq<Entry>, prefix: Bytes, lo: nat) {
    && lo <= |t|
    && (forall i :: 0 <= i < lo ==> Less(t[i].key, prefix))
    && (forall i :: lo <= i < |t| ==> !Less(t[i].key, prefix))
  }

  lemma {:induction false} NotLessUpward(prefix: Bytes, k: Bytes, k': Bytes)
    requires !Less(k, prefix) && Less(k, k')
    ensures !Less(k', prefix)
  {
    if Less(k', prefix) {
      LessTransitive(k, k', prefix);
      assert false;
    }
  }

  method RangeFrom(t: seq<Entry>, prefix: Bytes) returns (lo: nat)
    requires Ordered(t)
    ensures IsLowerBound(t, prefix, lo)
  {
    lo := 0;
    while lo < |t| && Less(t[lo].key, prefix)
      invariant lo <= |t|
      invariant forall i :: 0 <= i < lo ==> Less(t[i].key, prefix)
    {
      lo := lo + 1;
    }
    forall i | lo <= i < |t|
      ensures !Less(t[i].key, prefix)
    {
      if lo < i {
        NotLessUpward(prefix, t[lo].key, t[i].key);
      }
    }
  }

  /** A run that starts at the lower bound and stops at a mismatch or the end is everything that matches. */
  lemma RunIsMatching(t: seq<Entry>, prefix: Bytes, lo: nat, i: nat)
    requires Ordered(t) && IsLowerBound(t, prefix, lo) && lo <= i <= |t|
    requires forall j :: lo <= j < i ==> StartsWith(t[j].key, prefix)
    requires i < |t| ==> !StartsWith(t[i].key, prefix)
    ensures Matching(t, prefix) == t[lo..i]
  {
    hide StartsWith;
    hide Less;
    forall j | 0 <= j < lo
      ensures !StartsWith(t[j].key, prefix)
    {
      if StartsWith(t[j].key, prefix) {
        MatchNotBelow(t[j].key, prefix);
        assert false;
      }
    }
    forall j | i <= j < |t|
      ensures !StartsWith(t[j].key, prefix)
    {
      if i < j {
        NoMatchBeyondGap(prefix, t[i].key, t[j].key);
      }
    }
    MatchingIsRun(t, prefix, lo, i);
  }

  /** The limit cut the run short: what was collected is a prefix of everything that matches. */
  lemma {:induction false} CutRunIsPrefix(t: seq<Entry>, prefix: Bytes, lo: nat, i: nat)
    requires Ordered(t) && IsLowerBound(t, prefix, lo) && lo <= i <= |t|
    requires forall j :: lo <= j < i ==> StartsWith(t[j].key, prefix)
    ensures i - lo <= |Matching(t, prefix)| && Matching(t, prefix)[..i - lo] == t[lo..i]
    decreases |t| - i
  {
    hide StartsWith;
    hide Less;
    if i < |t| && StartsWith(t[i].key, prefix) {
      CutRunIsPrefix(t, prefix, lo, i + 1);
      assert t[lo..i + 1][..i - lo] == t[lo..i];
      assert Matching(t, prefix)[..i + 1 - lo][..i - lo] == Matching(t, prefix)[..i - lo];
    } else {
      RunIsMatching(t, prefix, lo, i);
    }
  }

  /** Native engine: the prefix test comes before the limit test. */
  method ScanNative(t: seq<Entry>, prefix: Bytes, limit: Option<nat>) returns (results: seq<Entry>)
    requires Ordered(t)
    ensures results == FirstN(Matching(t, prefix), limit)
  {
    hide StartsWith;
    hide Less;
    hide Matching;
    results := [];
    var lo := RangeFrom(t, prefix);
    var i := lo;
    while i < |t|
      invariant lo <= i <= |t| && results == t[lo..i]
      invariant limit.Some? ==> |results| <= limit.value
      invariant forall j :: lo <= j < i ==> StartsWith(t[j].key, prefix)
    {
      if !StartsWith(t[i].key, prefix) {
        break;
      }
      if limit.Some? && |results| >= limit.value {
        CutRunIsPrefix(t, prefix, lo, i);
        return;
      }
      results := results + [t[i]];
      i := i + 1;
    }
    RunIsMatching(t, prefix, lo, i);
  }

  /** Wasm engine: the limit test comes before the prefix test. */
  method ScanWasm(t: seq<Entry>, prefix: Bytes, limit: Option<nat>) returns (results: seq<Entry>)
    requires Ordered(t)
    ensures results == FirstN(Matching(t, prefix), limit)
  {
    hide StartsWith;
    hide Less;
    hide Matching;
    results := [];
    var lo := RangeFrom(t, prefix);
    var i := lo;
    while i < |t|
      invariant lo <= i <= |t| && results == t[lo..i]
      invariant limit.Some? ==> |results| <= limit.value
      invariant forall j :: lo <= j < i ==> StartsWith(t[j].key, prefix)
    {
      if limit.Some? && |results| >= limit.value {
        CutRunIsPrefix(t, prefix, lo, i);
        return;
      }
      if StartsWith(t[i].key, prefix) {
        results := results + [t[i]];
      } else {
        break;
      }
      i := i + 1;
    }
    RunIsMatching(t, prefix, lo, i);
  }

  function Restrict(db: Db, prefix: Bytes): Db {
    map k | k in db && StartsWith(k, prefix) :: db[k]
  }

  lemma {:induction false} MatchingMembers(t: seq<Entry>, prefix: Bytes)
    ensures forall e :: e in Matching(t, prefix) <==> e in t && StartsWith(e.key, prefix)
    decreases |t|
  {
    hide StartsWith;
    if |t| > 0 {
      MatchingMembers(t[..|t| - 1], prefix);
      assert t == t[..|t| - 1] + [t[|t| - 1]];
    }
  }

  lemma {:induction false} MatchingOrdered(t: seq<Entry>, prefix: Bytes)
    requires Ordered(t)
    ensures Ordered(Matching(t, prefix))
    decreases |t|
  {
    hide StartsWith;
    hide Less;
    if |t| > 0 {
      var front, last := t[..|t| - 1], t[|t| - 1];
      MatchingOrdered(front, prefix);
      MatchingMembers(front, prefix);
      var m := Matching(front, prefix);
      forall i | 0 <= i < |m|
        ensures Less(m[i].key, last.key)
      {
        assert m[i] in front;
        var j :| 0 <= j < |front| && front[j] == m[i];
        assert t[j] == m[i];
      }
    }
  }

  /** Filtering an enumeration of a map enumerates the restricted map. */
  lemma FilterEnumerates(t: seq<Entry>, db: Db, prefix: Bytes)
    requires Enumerates(t, db)
    ensures Enumerates(Matching(t, prefix), Restrict(db, prefix))
  {
    hide StartsWith;
    hide Less;
    hide Matching;
    MatchingOrdered(t, prefix);
    MatchingMembers(t, prefix);
    var m, r := Matching(t, prefix), Restrict(db, prefix);
    forall i | 0 <= i < |m|
      ensures m[i].key in r && r[m[i].key] == m[i].value
    {
      assert m[i] in m;
      assert m[i] in t;
    }
    forall k | k in r
      ensures exists i :: 0 <= i < |m| && m[i].key == k
    {
      var j :| 0 <= j < |t| && t[j].key == k;
      assert t[j] in t;
      assert t[j] in m;
    }
  }

  /** A map has only one enumeration, so the scan's answer is a function of the stored map alone. */
  lemma {:induction false} EnumerationUnique(t: seq<Entry>, u: seq<Entry>, db: Db)
    requires Enumerates(t, db) && Enumerates(u, db)
    ensures t == u
    decreases |t|
  {
    hide Less;
    if |t| == 0 {
      if |u| > 0 {
        LastKeysAgree(u, t, db);
        assert false;
      }
    } else {
      LastKeysAgree(t, u, db);
      var k := t[|t| - 1].key;
      EnumeratesFront(t, db);
      EnumeratesFront(u, db);
      EnumerationUnique(t[..|t| - 1], u[..|u| - 1], db - {k});
      assert t == t[..|t| - 1] + [t[|t| - 1]];
      assert u == u[..|u| - 1] + [u[|u| - 1]];
    }
  }

  lemma LastKeysAgree(t: seq<Entry>, u: seq<Entry>, db: Db)
    requires Enumerates(t, db) && Enumerates(u, db) && |t| > 0
    ensures |u| > 0 && t[|t| - 1].key == u[|u| - 1].key
  {
    hide Less;
    var last := t[|t| - 1].key;
    var i :| 0 <= i < |u| && u[i].key == last;
    var other := u[|u| - 1].key;
    var j :| 0 <= j < |t| && t[j].key == other;
    if i < |u| - 1 {
      assert Less(last, other);
      if j < |t| - 1 {
        assert Less(other, last);
        LessTransitive(last, other, last);
      }
      LessIrreflexive(last);
      assert false;
    }
  }

  lemma EnumeratesFront(t: seq<Entry>, db: Db)
    requires Enumerates(t, db) && |t| > 0
    ensures Enumerates(t[..|t| - 1], db - {t[|t| - 1].key})
  {
    hide Less;
    var front, k := t[..|t| - 1], t[|t| - 1].key;
    LessIrreflexive(k);
    forall x | x in db - {k}
      ensures exists i :: 0 <= i < |front| && front[i].key == x
    {
      var i :| 0 <= i < |t| && t[i].key == x;
      assert front[i] == t[i];
    }
  }

  /** Either scan of a stored map returns the first `limit` entries of any enumeration of its restriction. */
  lemma ScanIsFilter(t: seq<Entry>, db: Db, prefix: Bytes, limit: Option<nat>, restricted: seq<Entry>)
    requires Enumerates(t, db) && Enumerates(restricted, Restrict(db, prefix))
    ensures FirstN(Matching(t, prefix), limit) == FirstN(restricted, limit)
  {
    FilterEnumerates(t, db, prefix);
    EnumerationUnique(Matching(t, prefix), restricted, Restrict(db, prefix));
  }
}
