/** The append-only log of the wasm storage engine in kinetic-storage/src/lib.rs, and its replay. */
module StorageLog {
  import opened Numbers
  import opened ByteStrings
  import opened Results

  type Db = map<Bytes, Bytes>

  /** One logged operation; a delete is written as a tombstone. */
  datatype Op = Put(key: Bytes, value: Bytes) | Delete(key: Bytes)

  const TOMBSTONE: nat := 0xFFFF_FFFF
  const MEMORY_QUOTA: nat := 10_000

  /** The engine is compiled for wasm32 only: a cursor is 32 bits wide, and a vector or slice holds at most 2^31 - 1
      bytes. */
  const MAX_SLICE: nat := 0x7FFF_FFFF

  /** `x as u32` followed by `to_le_bytes` */
  function Len32(n: nat): (r: Bytes)
    ensures |r| == 4
  {
    FixedLE(n, 4)
  }

  function U32At(b: Bytes): (v: nat)
    requires |b| >= 4
    ensures v < U32_LIMIT
  {
    hide FromLE;
    FromLEBound(b[..4]);
    Pow256Literals();
    FromLE(b[..4])
  }

  function Record(op: Op): Bytes {
    match op
    case Put(k, v) => Len32(|k|) + k + Len32(|v|) + v
    case Delete(k) => Len32(|k|) + k + Len32(TOMBSTONE)
  }

  predicate InLimits(op: Op) {
    |op.key| < U32_LIMIT && (op.Put? ==> |op.value| < TOMBSTONE)
  }

  function Apply(db: Db, op: Op): Db {
    match op
    case Put(k, v) => db[k := v]
    case Delete(k) => db - {k}
  }

  function ApplyAll(db: Db, ops: seq<Op>): Db
    decreases |ops|
  {
    if |ops| == 0 then db else ApplyAll(Apply(db, ops[0]), ops[1..])
  }

  function Log(ops: seq<Op>): Bytes {
    if |ops| == 0 then [] else Record(ops[0]) + Log(ops[1..])
  }

  datatype Parsed = Incomplete | Complete(op: Op, size: nat)

  /** The value part of a record: a tombstone, or a framed value. */
  function ParseValue(key: Bytes, tail: Bytes, offset: nat): (p: Parsed)
    ensures p.Complete? ==> offset + 4 <= p.size <= offset + |tail|
    ensures p.Complete? ==> p.op.key == key
  {
    if |tail| < 4 then Incomplete
    else
      var valLen := U32At(tail);
      if valLen == TOMBSTONE then Complete(Delete(key), offset + 4)
      else if 4 + valLen > |tail| then Incomplete
      else Complete(Put(key, tail[4..4 + valLen]), offset + 4 + valLen)
  }

  /** The first record of a buffer, if all of its bytes are there. */
  function ParseHead(b: Bytes): (p: Parsed)
    ensures p.Complete? ==> 8 <= p.size <= |b|
  {
    if |b| < 4 then Incomplete
    else
      var keyLen := U32At(b);
      if 4 + keyLen > |b| then Incomplete
      else ParseValue(b[4..4 + keyLen], b[4 + keyLen..], 4 + keyLen)
  }

  /** Apply complete records from the front until none is left. */
  function Replay(b: Bytes, db: Db): Db
    decreases |b|
  {
    match ParseHead(b)
    case Incomplete => db
    case Complete(op, size) => Replay(b[size..], Apply(db, op))
  }

  /** The bytes after the last complete record. */
  function Leftover(b: Bytes): (t: Bytes)
    ensures |t| <= |b|
    decreases |b|
  {
    match ParseHead(b)
    case Incomplete => b
    case Complete(_, size) => Leftover(b[size..])
  }

  /** Does adding the key length or the value length at the front of `b` to the cursor wrap around 32 bits? `offset` is
      where `b` starts in the file. The slice taken next would then end before it starts, which aborts. */
  predicate HeadWraps(b: Bytes, offset: nat) {
    && |b| >= 4
    && var keyLen := U32At(b);
       || offset + 4 + keyLen >= U32_LIMIT
       || (8 + keyLen <= |b| && ValueWraps(b[4 + keyLen..], offset + 4 + keyLen))
  }

  predicate ValueWraps(tail: Bytes, offset: nat)
    requires |tail| >= 4
  {
    U32At(tail) != TOMBSTONE && offset + 4 + U32At(tail) >= U32_LIMIT
  }

  predicate TailWraps(b: Bytes) { HeadWraps(Leftover(b), |b| - |Leftover(b)|) }

  /** What opening a file yields: nothing when its bytes do not fit in a vector or the cursor wraps in its torn tail,
      and otherwise the replay. */
  function Reopen(b: Bytes): Option<Db> {
    if |b| > MAX_SLICE || TailWraps(b) then None else Some(Replay(b, map[]))
  }

  /** `a + b` on a 32-bit `usize` in an optimised build */
  function WrapAdd32(a: nat, b: nat): (r: nat)
    requires a < U32_LIMIT && b < U32_LIMIT
    ensures r == if a + b < U32_LIMIT then a + b else a + b - U32_LIMIT
  {
    if a + b < U32_LIMIT then a + b else a + b - U32_LIMIT
  }

  /** `init_opfs`: the cursor loop over the file's bytes; None is an abort. */
  method InitOpfs(buffer: Bytes) returns (contents: Option<Db>)
    ensures contents == Reopen(buffer)
  {
    hide U32At;
    hide Replay;
    hide Leftover;
    hide ParseHead;
    hide HeadWraps;
    if |buffer| > MAX_SLICE { return None; }
    var db: Db := map[];
    var cursor := 0;
    assert buffer[0..] == buffer;
    while cursor < |buffer|
      invariant 0 <= cursor <= |buffer|
      invariant Replay(buffer, map[]) == Replay(buffer[cursor..], db)
      invariant Leftover(buffer) == Leftover(buffer[cursor..])
      decreases |buffer| - cursor
    {
      HeadAt(buffer, cursor);
      StepAt(buffer, cursor, db);
      var at := cursor;
      if at + 4 > |buffer| { break; }
      var keyLen := U32At(buffer[at..]);
      at := WrapAdd32(at, 4);
      var keyEnd := WrapAdd32(at, keyLen);
      if keyEnd > |buffer| { break; }
      if keyEnd < at { return None; }
      var key := buffer[at..keyEnd];
      at := keyEnd;
      if at + 4 > |buffer| { break; }
      var valLen := U32At(buffer[at..]);
      at := WrapAdd32(at, 4);
      if valLen == TOMBSTONE {
        db := db - {key};
      } else {
        var valEnd := WrapAdd32(at, valLen);
        if valEnd > |buffer| { break; }
        if valEnd < at { return None; }
        var val := buffer[at..valEnd];
        at := valEnd;
        db := db[key := val];
      }
      cursor := at;
    }
    HeadAt(buffer, cursor);
    StepAt(buffer, cursor, db);
    contents := Some(db);
  }

  /** What is at the cursor, case by case. */
  lemma HeadAt(buffer: Bytes, cursor: nat)
    requires cursor <= |buffer| <= MAX_SLICE
    ensures var b := buffer[cursor..];
            if |b| < 4 then ParseHead(b).Incomplete? && !HeadWraps(b, cursor)
            else
              var keyEnd := cursor + 4 + U32At(b);
              if keyEnd + 4 > |buffer| then
                ParseHead(b).Incomplete? && (HeadWraps(b, cursor) <==> keyEnd >= U32_LIMIT)
              else
                var key, valLen := buffer[cursor + 4..keyEnd], U32At(buffer[keyEnd..]);
                var valEnd := keyEnd + 4 + valLen;
                if valLen == TOMBSTONE then ParseHead(b) == Complete(Delete(key), keyEnd + 4 - cursor)
                else if valEnd > |buffer| then
                  ParseHead(b).Incomplete? && (HeadWraps(b, cursor) <==> valEnd >= U32_LIMIT)
                else ParseHead(b) == Complete(Put(key, buffer[keyEnd + 4..valEnd]), valEnd - cursor)
  {
    hide U32At;
    var b := buffer[cursor..];
    if |b| >= 4 && 8 + U32At(b) <= |b| {
      var start := 4 + U32At(b);
      SliceOfSuffix(buffer, cursor, 4, start);
      SuffixOfSuffix(buffer, cursor, start);
      var valLen := U32At(b[start..]);
      if start + 4 + valLen <= |b| {
        SliceOfSuffix(buffer, cursor + start, 4, 4 + valLen);
      }
    }
  }

  /** Replay and leftover, one record on. */
  lemma StepAt(buffer: Bytes, cursor: nat, db: Db)
    requires cursor <= |buffer|
    ensures var b := buffer[cursor..];
            var p := ParseHead(b);
            if p.Incomplete? then Replay(b, db) == db && Leftover(b) == b
            else
              && Replay(b, db) == Replay(buffer[cursor + p.size..], Apply(db, p.op))
              && Leftover(b) == Leftover(buffer[cursor + p.size..])
  {
    hide ParseHead;
    var b := buffer[cursor..];
    ReplayStep(b, db);
    if ParseHead(b).Complete? {
      SuffixOfSuffix(buffer, cursor, ParseHead(b).size);
    }
  }

  lemma SuffixOfSuffix(b: Bytes, n: nat, i: nat)
    requires n + i <= |b|
    ensures b[n..][i..] == b[n + i..]
  {
  }

  lemma SliceOfSuffix(b: Bytes, n: nat, i: nat, j: nat)
    requires i <= j && n + j <= |b|
    ensures b[n..][i..j] == b[n + i..n + j]
  {
  }

  lemma ReplayStep(b: Bytes, db: Db)
    ensures var p := ParseHead(b);
            && Replay(b, db) == (if p.Incomplete? then db else Replay(b[p.size..], Apply(db, p.op)))
            && Leftover(b) == (if p.Incomplete? then b else Leftover(b[p.size..]))
  {
  }

  lemma U32RoundTrip(n: nat, rest: Bytes)
    ensures U32At(Len32(n) + rest) == n % U32_LIMIT
  {
    hide FromLE;
    hide FixedLE;
    assert (Len32(n) + rest)[..4] == Len32(n);
    FixedLETruncates(n, 4);
    Pow256Literals();
  }

  lemma ReadFramed(field: Bytes, rest: Bytes)
    requires |field| < U32_LIMIT
    ensures var b := Len32(|field|) + field + rest;
            U32At(b) == |field| && b[4..4 + |field|] == field && b[4 + |field|..] == rest
  {
    hide Len32;
    hide U32At;
    var b := Len32(|field|) + field + rest;
    assert b == Len32(|field|) + (field + rest);
    U32RoundTrip(|field|, field + rest);
  }

  /** A record within the limits, whatever follows it, parses back to its operation. */
  lemma ParseRecord(op: Op, rest: Bytes)
    requires InLimits(op)
    ensures ParseHead(Record(op) + rest) == Complete(op, |Record(op)|)
  {
    hide Len32;
    hide U32At;
    var b, k := Record(op) + rest, op.key;
    var tail := ValuePart(op) + rest;
    assert b == Len32(|k|) + k + tail;
    ReadFramed(k, tail);
    ParseValuePart(op, rest, 4 + |k|);
  }

  /** Where everything is in a record: two little-endian lengths cut to 32 bits, each before its bytes; a tombstone has
      the largest length and no bytes. */
  lemma RecordLayout(op: Op)
    ensures var r, n := Record(op), |op.key|;
            && |r| == 8 + n + (if op.Put? then |op.value| else 0)
            && FromLE(r[..4]) == n % U32_LIMIT && r[4..4 + n] == op.key
            && FromLE(r[4 + n..8 + n]) == (if op.Put? then |op.value| % U32_LIMIT else 0xFFFF_FFFF)
            && (op.Put? ==> r[8 + n..] == op.value)
  {
    hide FromLE;
    hide FixedLE;
    Pow256Literals();
    FixedLETruncates(|op.key|, 4);
    var tail := if op.Put? then |op.value| else TOMBSTONE;
    FixedLETruncates(tail, 4);
    var r, n := Record(op), |op.key|;
    assert r[..4] == Len32(n);
    assert r[4 + n..8 + n] == Len32(tail);
  }

  function ValuePart(op: Op): Bytes {
    if op.Put? then Len32(|op.value|) + op.value else Len32(TOMBSTONE)
  }

  lemma ParseValuePart(op: Op, rest: Bytes, offset: nat)
    requires InLimits(op)
    ensures ParseValue(op.key, ValuePart(op) + rest, offset) == Complete(op, offset + |ValuePart(op)|)
  {
    hide Len32;
    hide U32At;
    if op.Put? {
      ReadFramed(op.value, rest);
    } else {
      U32RoundTrip(TOMBSTONE, rest);
    }
  }

  /** Parsing looks only at the record's own bytes. */
  lemma ParseStable(b: Bytes, more: Bytes)
    requires ParseHead(b).Complete?
    ensures ParseHead(b + more) == ParseHead(b)
  {
    hide ParseHead;
    assert (b + more)[..|b|] == b;
    ParseShrinks(b + more, |b|);
  }

  lemma U32OfPrefix(b: Bytes, n: nat)
    requires 4 <= n <= |b|
    ensures U32At(b[..n]) == U32At(b)
  {
    hide FromLE;
    assert b[..n][..4] == b[..4];
  }

  /** Cutting a buffer behind its first record leaves that record, and adds none. */
  lemma ParseShrinks(b: Bytes, n: nat)
    requires n <= |b|
    requires (ParseHead(b).Complete? && ParseHead(b).size <= n) || ParseHead(b[..n]).Complete?
    ensures ParseHead(b[..n]) == ParseHead(b)
  {
    hide U32At;
    hide ParseValue;
    U32OfPrefix(b, n);
    var start := 4 + U32At(b);
    SliceOfPrefix(b, n, 4, start);
    assert b[..n][start..] == b[start..][..n - start];
    ParseValueShrinks(b[4..start], b[start..], n - start, start);
  }

  lemma ParseValueShrinks(key: Bytes, tail: Bytes, n: nat, offset: nat)
    requires n <= |tail|
    requires (ParseValue(key, tail, offset).Complete? && ParseValue(key, tail, offset).size <= offset + n)
          || ParseValue(key, tail[..n], offset).Complete?
    ensures ParseValue(key, tail[..n], offset) == ParseValue(key, tail, offset)
  {
    hide U32At;
    U32OfPrefix(tail, n);
    var valLen := U32At(tail);
    if valLen != TOMBSTONE {
      SliceOfPrefix(tail, n, 4, 4 + valLen);
    }
  }

  /** A cut record is never mistaken for a complete one. */
  lemma ParseCut(op: Op, n: nat)
    requires InLimits(op) && n < |Record(op)|
    ensures ParseHead(Record(op)[..n]).Incomplete?
  {
    hide ParseHead;
    hide Record;
    var r := Record(op);
    if ParseHead(r[..n]).Complete? {
      ParseShrinks(r, n);
      assert r + [] == r;
      ParseRecord(op, []);
      assert false;
    }
  }

  /** How many whole records fit in the first n bytes of the log. */
  function CompleteOps(ops: seq<Op>, n: nat): (m: nat)
    ensures m <= |ops|
  {
    if |ops| == 0 || n < |Record(ops[0])| then 0
    else 1 + CompleteOps(ops[1..], n - |Record(ops[0])|)
  }

  /** CompleteOps counts the longest prefix of operations whose log fits in n bytes. */
  lemma {:induction false} CompleteOpsIsLongest(ops: seq<Op>, n: nat)
    ensures var m := CompleteOps(ops, n);
            |Log(ops[..m])| <= n && (m < |ops| ==> |Log(ops[..m + 1])| > n)
    decreases |ops|
  {
    hide Record;
    var m := CompleteOps(ops, n);
    if m > 0 {
      CompleteOpsIsLongest(ops[1..], n - |Record(ops[0])|);
      assert ops[..m][1..] == ops[1..][..m - 1];
      if m < |ops| {
        assert ops[..m + 1][1..] == ops[1..][..m];
      }
    } else if |ops| > 0 {
      assert ops[..1][0] == ops[0];
    }
  }

  lemma CutConcat(a: Bytes, b: Bytes, n: nat)
    requires n <= |a + b|
    ensures n < |a| ==> (a + b)[..n] == a[..n]
    ensures n >= |a| ==> (a + b)[..n] == a + b[..n - |a|] && (a + b)[..n][|a|..] == b[..n - |a|]
  {
  }

  lemma ApplyFirst(db: Db, ops: seq<Op>, m: nat)
    requires 0 < m <= |ops|
    ensures ApplyAll(db, ops[..m]) == ApplyAll(Apply(db, ops[0]), ops[1..][..m - 1])
  {
    hide Apply;
    assert ops[..m][1..] == ops[1..][..m - 1];
  }

  /** Crash recovery: replaying any byte prefix of a log rebuilds the map after its complete operations. */
  lemma {:induction false} PrefixReplay(ops: seq<Op>, n: nat, db: Db)
    requires forall i :: 0 <= i < |ops| ==> InLimits(ops[i])
    requires n <= |Log(ops)|
    ensures Replay(Log(ops)[..n], db) == ApplyAll(db, ops[..CompleteOps(ops, n)])
    decreases |ops|
  {
    hide Record;
    hide ParseHead;
    hide Replay;
    hide Apply;
    hide InLimits;
    var b := Log(ops)[..n];
    ReplayStep(b, db);
    if |ops| == 0 {
      NothingParses(b);
    } else {
      var r, rest := Record(ops[0]), Log(ops[1..]);
      CutConcat(r, rest, n);
      if n < |r| {
        ParseCut(ops[0], n);
      } else {
        ParseRecord(ops[0], rest[..n - |r|]);
        PrefixReplay(ops[1..], n - |r|, Apply(db, ops[0]));
        ApplyFirst(db, ops, CompleteOps(ops, n));
      }
    }
  }

  lemma NothingParses(b: Bytes)
    requires |b| < 8
    ensures ParseHead(b).Incomplete?
  {
  }

  /** A whole log replays to exactly the map its operations built. */
  lemma FullReplay(ops: seq<Op>)
    requires forall i :: 0 <= i < |ops| ==> InLimits(ops[i])
    ensures Replay(Log(ops), map[]) == ApplyAll(map[], ops)
  {
    hide Log;
    hide Replay;
    hide CompleteOps;
    hide ApplyAll;
    CompleteOpsIsLongest(ops, |Log(ops)|);
    PrefixReplay(ops, |Log(ops)|, map[]);
    assert Log(ops)[..|Log(ops)|] == Log(ops);
    var m := CompleteOps(ops, |Log(ops)|);
    if m < |ops| {
      LogSplit(ops, m + 1);
      assert false;
    }
    assert ops[..m] == ops;
  }

  lemma {:induction false} LogSplit(ops: seq<Op>, m: nat)
    requires m <= |ops|
    ensures Log(ops) == Log(ops[..m]) + Log(ops[m..])
    decreases m
  {
    hide Record;
    if m == 0 {
      assert ops[0..] == ops;
    } else {
      LogSplit(ops[1..], m - 1);
      assert ops[..m][1..] == ops[1..][..m - 1];
      assert ops[1..][m - 1..] == ops[m..];
    }
  }

  // ----- Appending to an existing log -----

  /** Complete records are consumed first; what follows is read after the leftover bytes. */
  lemma {:induction false} ReplaySplit(b: Bytes, more: Bytes, db: Db)
    ensures Replay(b + more, db) == Replay(Leftover(b) + more, Replay(b, db))
    ensures Leftover(b + more) == Leftover(Leftover(b) + more)
    decreases |b|
  {
    hide ParseHead;
    var p := ParseHead(b);
    if p.Complete? {
      ParseStable(b, more);
      assert (b + more)[p.size..] == b[p.size..] + more;
      ReplaySplit(b[p.size..], more, Apply(db, p.op));
    }
  }

  /** Appending an in-limit record to a log with no leftover bytes extends the replayed map by that operation. */
  lemma AppendReplays(b: Bytes, op: Op, db: Db)
    requires Leftover(b) == [] && InLimits(op)
    ensures Replay(b + Record(op), db) == Apply(Replay(b, db), op)
    ensures Leftover(b + Record(op)) == []
  {
    hide ParseHead;
    hide Record;
    ReplaySplit(b, Record(op), db);
    assert [] + Record(op) == Record(op) == Record(op) + [];
    ParseRecord(op, []);
    assert Record(op)[|Record(op)|..] == [];
    NothingParses([]);
  }

  /** Every operation whose record still fits in the file is recovered by the next open. */
  ghost predicate AppendSafe(b: Bytes) {
    forall op :: |b + Record(op)| <= MAX_SLICE ==> Reopen(b + Record(op)) == Some(Apply(Replay(b, map[]), op))
  }

  predicate Maps(db: Db, k: Bytes, v: Bytes) { k in db && db[k] == v }

  /** Fewer bytes than a put's record cannot replay to that put's effect. */
  lemma {:induction false} ShortReplayCannotPut(b: Bytes, db: Db, k: Bytes, v: Bytes)
    requires |b| < 8 + |k| + |v| && !Maps(db, k, v)
    ensures !Maps(Replay(b, db), k, v)
    decreases |b|
  {
    hide ParseHead;
    var p := ParseHead(b);
    if p.Complete? {
      OpFits(b);
      ShortReplayCannotPut(b[p.size..], Apply(db, p.op), k, v);
    }
  }

  lemma OpFits(b: Bytes)
    requires ParseHead(b).Complete?
    ensures var op := ParseHead(b).op;
            && ParseHead(b).size == 8 + |op.key| + (if op.Put? then |op.value| else 0)
            && InLimits(op)
  {
    hide U32At;
  }

  lemma LowByte(b: Bytes)
    requires |b| >= 4
    ensures U32At(b) % 256 == b[0]
  {
    assert b[..4][0] == b[0];
  }

  /** Behind a torn record, a put whose key length differs from the torn length byte is lost. */
  lemma TornTailSwallowsPut(t: Bytes, db: Db, k: Bytes, v: Bytes)
    requires |t| > 0 && ParseHead(t).Incomplete?
    requires |k| < 256 && |k| != t[0] && !Maps(db, k, v)
    ensures !Maps(Replay(t + Record(Put(k, v)), db), k, v)
  {
    hide ParseHead;
    hide Record;
    hide Replay;
    var b := t + Record(Put(k, v));
    RecordLength(Put(k, v));
    ReplayStep(b, db);
    var p := ParseHead(b);
    if p.Complete? {
      assert b[..|t|] == t;
      if p.size <= |t| {
        ParseShrinks(b, |t|);
        assert false;
      }
      KeyLengthByte(b);
      ShortReplayCannotPut(b[p.size..], Apply(db, p.op), k, v);
    }
  }

  lemma RecordLength(op: Op)
    ensures |Record(op)| == 8 + |op.key| + if op.Put? then |op.value| else 0
  {
    hide Len32;
  }

  lemma KeyLengthByte(b: Bytes)
    requires ParseHead(b).Complete?
    ensures |b| > 0 && |ParseHead(b).op.key| % 256 == b[0]
  {
    hide U32At;
    LowByte(b);
  }

  /** Recovery does not truncate a torn tail, so a reopened log is safe to append to exactly when it has none; eleven
      bytes of room are enough for a put that is lost. */
  lemma AppendSafeExactlyWhenNoLeftover(b: Bytes)
    ensures Leftover(b) == [] ==> AppendSafe(b)
    ensures AppendSafe(b) && |b| + 11 <= MAX_SLICE ==> Leftover(b) == []
  {
    hide ParseHead;
    hide Record;
    hide Replay;
    hide Leftover;
    hide Reopen;
    if Leftover(b) == [] {
      forall op | |b + Record(op)| <= MAX_SLICE
        ensures Reopen(b + Record(op)) == Some(Apply(Replay(b, map[]), op))
      {
        PayloadWithinLimits(op);
        AppendReplays(b, op, map[]);
        WholeLogReopens(b + Record(op));
      }
    } else if |b| + 11 <= MAX_SLICE {
      var t, db := Leftover(b), Replay(b, map[]);
      LeftoverIsTorn(b);
      var k: Bytes := if t[0] == 1 then [0, 0] else [0];
      var v: Bytes := if Maps(db, k, []) then [0] else [];
      RecordLength(Put(k, v));
      ReplaySplit(b, Record(Put(k, v)), map[]);
      TornTailSwallowsPut(t, db, k, v);
      ReopenIsReplay(b + Record(Put(k, v)));
      assert Maps(Apply(db, Put(k, v)), k, v);
    }
  }

  lemma {:induction false} LeftoverIsTorn(b: Bytes)
    ensures ParseHead(Leftover(b)).Incomplete?
    decreases |b|
  {
    hide ParseHead;
    if ParseHead(b).Complete? {
      LeftoverIsTorn(b[ParseHead(b).size..]);
    }
  }

  // ----- Which files open at all -----

  lemma ReopenIsReplay(b: Bytes)
    ensures Reopen(b).Some? ==> Reopen(b).value == Replay(b, map[])
  {
  }

  lemma OversizedFileAborts(b: Bytes)
    requires |b| > 0x7FFF_FFFF
    ensures Reopen(b).None?
  {
  }

  /** A file of whole records opens whenever its bytes fit in a vector. */
  lemma WholeLogReopens(b: Bytes)
    requires Leftover(b) == [] && |b| <= 0x7FFF_FFFF
    ensures Reopen(b) == Some(Replay(b, map[]))
  {
    hide Replay;
    hide Leftover;
  }

  /** A payload is one vector, so every operation that can be logged is within the limits of the format. */
  lemma PayloadWithinLimits(op: Op)
    requires |Record(op)| <= MAX_SLICE
    ensures InLimits(op)
  {
    hide Record;
    RecordLength(op);
  }

  /** Crash recovery as the engine runs it: whatever operations were logged, the file opens after losing any number of
      bytes at its end, to the map after the operations that are whole. */
  lemma CrashRecovery(ops: seq<Op>, n: nat)
    requires forall i :: 0 <= i < |ops| ==> |Record(ops[i])| <= MAX_SLICE
    requires n <= |Log(ops)| && n <= MAX_SLICE
    ensures Reopen(Log(ops)[..n]) == Some(ApplyAll(map[], ops[..CompleteOps(ops, n)]))
  {
    hide Record;
    hide Log;
    hide Replay;
    hide ApplyAll;
    hide CompleteOps;
    hide HeadWraps;
    forall i | 0 <= i < |ops|
      ensures InLimits(ops[i])
    {
      PayloadWithinLimits(ops[i]);
    }
    PrefixReplay(ops, n, map[]);
    PrefixNeverWraps(ops, n, 0);
  }

  /** The torn tail of a cut log never makes the cursor wrap. */
  lemma {:induction false} PrefixNeverWraps(ops: seq<Op>, n: nat, offset: nat)
    requires forall i :: 0 <= i < |ops| ==> |Record(ops[i])| <= MAX_SLICE
    requires n <= |Log(ops)| && offset + n <= MAX_SLICE
    ensures var b := Log(ops)[..n]; !HeadWraps(Leftover(b), offset + |b| - |Leftover(b)|)
    decreases |ops|
  {
    hide Record;
    hide ParseHead;
    hide Leftover;
    hide HeadWraps;
    var b := Log(ops)[..n];
    ReplayStep(b, map[]);
    if |ops| == 0 {
      NothingParses(b);
      ShortNeverWraps(b, offset);
    } else {
      var r, rest := Record(ops[0]), Log(ops[1..]);
      PayloadWithinLimits(ops[0]);
      CutConcat(r, rest, n);
      if n < |r| {
        ParseCut(ops[0], n);
        CutNeverWraps(ops[0], n, offset);
      } else {
        ParseRecord(ops[0], rest[..n - |r|]);
        PrefixNeverWraps(ops[1..], n - |r|, offset + |r|);
      }
    }
  }

  lemma ShortNeverWraps(b: Bytes, offset: nat)
    requires |b| < 4
    ensures !HeadWraps(b, offset)
  {
  }

  lemma CutNeverWraps(op: Op, n: nat, offset: nat)
    requires n < |Record(op)| <= MAX_SLICE && offset + n <= MAX_SLICE
    ensures !HeadWraps(Record(op)[..n], offset)
  {
    hide U32At;
    hide Len32;
    var cut, k := Record(op)[..n], op.key;
    assert Record(op) == Len32(|k|) + k + ValuePart(op);
    if n >= 4 {
      ReadFramed(k, ValuePart(op));
      U32OfPrefix(Record(op), n);
      if n >= 8 + |k| {
        var tail := cut[4 + |k|..];
        assert tail == ValuePart(op)[..n - 4 - |k|];
        U32OfPrefix(ValuePart(op), |tail|);
        assert ValuePart(op) + [] == ValuePart(op);
        if op.Put? {
          ReadFramed(op.value, []);
        } else {
          U32RoundTrip(TOMBSTONE, []);
        }
      }
    }
  }

  /** A file that cannot be opened stays so, whatever is appended to it. */
  lemma AbortIsPermanent(b: Bytes, more: Bytes)
    requires Reopen(b).None?
    ensures Reopen(b + more).None?
  {
    hide Replay;
    hide ParseHead;
    hide HeadWraps;
    if |b + more| <= MAX_SLICE {
      var t := Leftover(b);
      ReplaySplit(b, more, map[]);
      WrapSurvives(t, more, |b| - |t|);
      ReplayStep(t + more, map[]);
      assert Leftover(b + more) == t + more;
    }
  }

  lemma WrapSurvives(t: Bytes, more: Bytes, offset: nat)
    requires HeadWraps(t, offset) && offset + |t + more| <= MAX_SLICE
    ensures ParseHead(t + more).Incomplete? && HeadWraps(t + more, offset)
  {
    hide U32At;
    var all := t + more;
    assert all[..|t|] == t;
    U32OfPrefix(all, |t|);
    var start := 4 + U32At(t);
    if offset + start < U32_LIMIT {
      assert all[start..][..|t| - start] == t[start..];
      U32OfPrefix(all[start..], |t| - start);
    }
  }

  /** Eight bytes are enough to abort the open: the key length wraps the cursor to 3, and the slice would be [4..3]. */
  lemma EightBytesAbort()
    ensures Reopen([255, 255, 255, 255, 0, 0, 0, 0]).None?
  {
    hide FromLE;
    var b: Bytes := [255, 255, 255, 255, 0, 0, 0, 0];
    assert U32At(b) == TOMBSTONE by { AllOnes(b); }
    assert ParseHead(b).Incomplete?;
    assert Leftover(b) == b;
  }

  lemma AllOnes(b: Bytes)
    requires |b| >= 4 && b[0] == b[1] == b[2] == b[3] == 255
    ensures U32At(b) == TOMBSTONE
  {
    var f := b[..4];
    assert FromLE(f[3..]) == 255 + 256 * FromLE(f[3..][1..]);
    assert FromLE(f[2..]) == 255 + 256 * FromLE(f[2..][1..]) && f[2..][1..] == f[3..];
    assert FromLE(f[1..]) == 255 + 256 * FromLE(f[1..][1..]) && f[1..][1..] == f[2..];
  }

  // ----- Exactly which puts the format can hold -----

  ghost predicate Representable(db: Db) {
    forall k :: k in db ==> |k| < U32_LIMIT && |db[k]| < TOMBSTONE
  }

  lemma {:induction false} ReplayIsRepresentable(b: Bytes, db: Db)
    requires Representable(db)
    ensures Representable(Replay(b, db))
    decreases |b|
  {
    hide ParseHead;
    var p := ParseHead(b);
    if p.Complete? {
      OpFits(b);
      ReplayIsRepresentable(b[p.size..], Apply(db, p.op));
    }
  }

  /** A put is recovered from the log exactly when its key and value lengths survive the casts to u32. */
  lemma PutSurvivesExactlyWithinLimits(b: Bytes, k: Bytes, v: Bytes)
    requires Leftover(b) == []
    ensures Replay(b + Record(Put(k, v)), map[]) == Replay(b, map[])[k := v] <==> InLimits(Put(k, v))
  {
    hide ParseHead;
    hide Record;
    hide Replay;
    if InLimits(Put(k, v)) {
      AppendReplays(b, Put(k, v), map[]);
    } else {
      ReplayIsRepresentable(b + Record(Put(k, v)), map[]);
      assert Maps(Replay(b, map[])[k := v], k, v);
    }
  }

  /** A logged delete is final: the reopened file lacks the key and keeps every other entry as it was. */
  lemma DeleteIsRecovered(b: Bytes, k: Bytes)
    requires Leftover(b) == [] && |b + Record(Delete(k))| <= MAX_SLICE
    ensures Reopen(b).Some? && Reopen(b + Record(Delete(k))).Some?
    ensures var before, after := Reopen(b).value, Reopen(b + Record(Delete(k))).value;
            && k !in after
            && (forall other :: other != k ==> (other in after <==> other in before))
            && (forall other :: other in after ==> after[other] == before[other])
  {
    hide Leftover;
    hide Record;
    hide Replay;
    WholeLogReopens(b);
    AppendKeepsDurable(b, Delete(k));
  }

  /** What a map built by operations holds: key k has value v exactly when some put of them is the last operation on
      k, or no operation touches k and the starting map has them. */
  ghost predicate LastOnKey(ops: seq<Op>, i: int, k: Bytes) {
    0 <= i < |ops| && ops[i].key == k && forall j :: i < j < |ops| ==> ops[j].key != k
  }

  lemma {:induction false} ApplyAllKeepsLast(db: Db, ops: seq<Op>, k: Bytes, v: Bytes)
    ensures Maps(ApplyAll(db, ops), k, v) <==>
            || (exists i :: LastOnKey(ops, i, k) && ops[i] == Put(k, v))
            || (Maps(db, k, v) && forall i :: 0 <= i < |ops| ==> ops[i].key != k)
    decreases |ops|
  {
    if |ops| > 0 {
      var rest := ops[1..];
      ApplyAllKeepsLast(Apply(db, ops[0]), rest, k, v);
      forall i
        ensures i > 0 ==> (LastOnKey(ops, i, k) <==> LastOnKey(rest, i - 1, k))
      {
        LastOnKeyShift(ops, i, k);
      }
      if i :| LastOnKey(rest, i, k) && rest[i] == Put(k, v) {
        assert LastOnKey(ops, i + 1, k) && ops[i + 1] == Put(k, v);
      }
      if i :| LastOnKey(ops, i, k) && ops[i] == Put(k, v) {
        assert i > 0 ==> LastOnKey(rest, i - 1, k);
        assert i == 0 ==> forall j :: 0 <= j < |rest| ==> rest[j] == ops[j + 1];
      }
      assert forall i :: 0 < i < |ops| ==> ops[i] == rest[i - 1];
    }
  }

  lemma LastOnKeyShift(ops: seq<Op>, i: int, k: Bytes)
    requires |ops| > 0
    ensures i > 0 ==> (LastOnKey(ops, i, k) <==> LastOnKey(ops[1..], i - 1, k))
  {
    var rest := ops[1..];
    if LastOnKey(rest, i - 1, k) {
      forall j | i < j < |ops|
        ensures ops[j].key != k
      {
        assert ops[j] == rest[j - 1];
      }
    }
  }

  lemma AppendKeepsDurable(b: Bytes, op: Op)
    ensures Leftover(b) == [] && Reopen(b).Some? && |b + Record(op)| <= MAX_SLICE ==>
              Reopen(b + Record(op)) == Some(Apply(Reopen(b).value, op)) && Leftover(b + Record(op)) == []
    ensures |b + Record(op)| > MAX_SLICE ==> Reopen(b + Record(op)).None?
  {
    hide Replay;
    hide Leftover;
    hide Record;
    if Leftover(b) == [] && |b + Record(op)| <= MAX_SLICE {
      PayloadWithinLimits(op);
      AppendReplays(b, op, map[]);
      WholeLogReopens(b);
      WholeLogReopens(b + Record(op));
    }
  }

  datatype StorageError = QuotaExceeded

  /** The wasm storage engine: the in-memory map and, when a file handle is open, the file's bytes. */
  class KineticStorage {
    var db: Db
    var file: Option<Bytes>

    /** A reopened store would see exactly this map, and everything appended so far is whole. */
    ghost predicate Durable()
      reads this
    {
      file.Some? ==> Leftover(file.value) == [] && Reopen(file.value) == Some(db)
    }

    /** `new`: in memory only */
    constructor InMemory()
      ensures db == map[] && file == None && Durable()
    {
      db, file := map[], None;
    }

    constructor WithFile(contents: Db, buffer: Bytes)
      ensures db == contents && file == Some(buffer)
    {
      db, file := contents, Some(buffer);
    }

    /** `init_opfs` over the bytes found in the file; null is an abort. */
    static method Open(buffer: Bytes) returns (store: KineticStorage?)
      ensures store == null <==> Reopen(buffer).None?
      ensures store != null ==> fresh(store) && store.file == Some(buffer) && store.db == Replay(buffer, map[])
      ensures store != null ==> (store.Durable() <==> Leftover(buffer) == [])
    {
      hide Replay;
      hide Leftover;
      var contents := InitOpfs(buffer);
      if contents.None? { return null; }
      store := new KineticStorage.WithFile(contents.value, buffer);
    }

    method AppendToLog(key: Bytes, value: Option<Bytes>)
      modifies this`file
      ensures file == match old(file)
                      case None => None
                      case Some(b) => Some(b + Record(if value.Some? then Put(key, value.value) else Delete(key)))
    {
      hide Len32;
      if file.Some? {
        var payload: Bytes := [];
        payload := payload + Len32(|key|);
        payload := payload + key;
        if value.Some? {
          payload := payload + Len32(|value.value|);
          payload := payload + value.value;
          assert payload == Record(Put(key, value.value));
        } else {
          payload := payload + Len32(TOMBSTONE);
          assert payload == Record(Delete(key));
        }
        file := Some(file.value + payload);
      }
    }

    method PutKey(key: Bytes, value: Bytes) returns (r: Result<(), StorageError>)
      modifies this
      ensures r.Err? <==> old(file).None? && |old(db)| >= 10_000 && key !in old(db)
      ensures r.Err? ==> db == old(db) && file == old(file)
      ensures r.Ok? ==> db == Apply(old(db), Put(key, value))
      ensures r.Ok? && old(file).Some? ==> file == Some(old(file).value + Record(Put(key, value)))
      ensures old(Durable()) && r.Ok? && file.Some? ==> (Durable() <==> |file.value| <= MAX_SLICE)
      ensures old(file).None? ==> file.None? && (|old(db)| <= 10_000 ==> |db| <= 10_000)
    {
      hide Reopen;
      hide Leftover;
      hide Record;
      if file.None? && |db| >= MEMORY_QUOTA && key !in db {
        return Err(QuotaExceeded);
      }
      if file.Some? {
        AppendKeepsDurable(file.value, Put(key, value));
      }
      db := db[key := value];
      AppendToLog(key, Some(value));
      r := Ok(());
    }

    method DeleteKey(key: Bytes)
      modifies this
      ensures db == Apply(old(db), Delete(key))
      ensures key !in db
      ensures forall other :: other != key ==> (other in db <==> other in old(db))
      ensures forall other :: other in db ==> db[other] == old(db)[other]
      ensures old(file).Some? ==> file == Some(old(file).value + Record(Delete(key)))
      ensures old(file).None? ==> file.None?
      ensures old(Durable()) && file.Some? ==> (Durable() <==> |file.value| <= MAX_SLICE)
    {
      hide Reopen;
      hide Leftover;
      hide Record;
      if file.Some? {
        AppendKeepsDurable(file.value, Delete(key));
      }
      db := db - {key};
      AppendToLog(key, None);
    }
  }
}
