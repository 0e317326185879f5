/**
 * Bulk key transfer between neighbouring nodes. The sender writes one line,
 * "<key>:<value>%0A" for every stored key of a range in ascending order,
 * followed by "FIN"; the receiver splits the line at "%0A", skips blank and
 * malformed segments, stops at "FIN" and inserts the rest without
 * overwriting; after the receiver's acknowledgement the sender deletes the
 * range. A wrapping range (start > end) transfers and deletes nothing.
 */
module KeyTransfer {
  import opened JavaText
  import opened Common
  import opened KeyValueStore

  // ---------------------------------------------------------------------
  // Encoding

  /** The text of one record without its terminator. */
  function PairText(key: int, value: string): string
  {
    IntToString(key) + ":" + value
  }

  /** The record sendKeyValueRange appends for a stored key. */
  function Item(key: int, value: string): string
  {
    PairText(key, value) + "%0A"
  }

  /** The records for the stored keys lo..hi of m, ascending; empty when
      lo > hi. */
  function Records(m: map<int, string>, lo: int, hi: int): (r: string)
    ensures r == "" <==> forall k | lo <= k <= hi :: k !in m
    decreases hi - lo
  {
    if lo > hi then ""
    else (if lo in m then Item(lo, m[lo]) else "") + Records(m, lo + 1, hi)
  }

  /** sendKeyValueRange: walks the keys from range.start up to range.end,
      looks each up and appends a record for every one that is present,
      then terminates the line with "FIN". The store is only read. */
  method SendKeyValueRange(store: Store, range: Range) returns (line: string)
    ensures line == Records(store.entries, range.start, range.end) + "FIN"
  {
    var output := "";
    var key := range.start;
    while key <= range.end
      invariant key == range.start || key <= range.end + 1
      invariant output + Records(store.entries, key, range.end) == Records(store.entries, range.start, range.end)
      decreases range.end - key
    {
      var value := store.Lookup(key);
      if value.Some? {
        output := output + Item(key, value.value);
      }
      key := key + 1;
    }
    line := output + "FIN";
  }

  /** A wrapping range sends no record: the line is exactly "FIN". */
  lemma WrappingRangeSendsNothing(m: map<int, string>, range: Range)
    requires range.start > range.end
    ensures Records(m, range.start, range.end) + "FIN" == "FIN"
  {
  }

  /** The entries of m with keys in lo..hi. */
  function Restrict(m: map<int, string>, lo: int, hi: int): map<int, string>
  {
    map k | k in m && lo <= k <= hi :: m[k]
  }

  /** The entries of m with keys outside lo..hi. */
  function Outside(m: map<int, string>, lo: int, hi: int): map<int, string>
  {
    map k | k in m && !(lo <= k <= hi) :: m[k]
  }

  /** The store d after inserting every entry of extra without overwriting. */
  function Merged(d: map<int, string>, extra: map<int, string>): map<int, string>
  {
    map k | k in d.Keys + extra.Keys :: if k in d then d[k] else extra[k]
  }

  // ---------------------------------------------------------------------
  // Decoding

  /** What the receiving loop does with a segment that is neither blank
      nor "FIN": a segment that does not split at ':' into at least two
      parts is skipped, a segment whose trimmed first part is not an int is
      skipped, and otherwise the trimmed second part is inserted under that
      key unless the key is present. Parts after the second are ignored. */
  function DecodeStep(seg: string, m: map<int, string>): (r: map<int, string>)
    ensures forall k | k in m :: k in r && r[k] == m[k]
    ensures ':' !in seg ==> r == m
  {
    assert ':' !in seg ==> Split(seg, ":") == [seg] by {
      if ':' !in seg { IndexOfNone(seg, ":"); }
    }
    var parts := Split(seg, ":");
    if |parts| < 2 then m
    else match ParseInt(Trim(parts[0]))
      case None => m
      case Some(key) => Inserted(m, key, Trim(parts[1]))
  }

  /** What the receiving loop does with the segments of the line, in order:
      a blank segment is skipped, "FIN" ends the loop, any other segment is
      handled by DecodeStep. */
  function DecodeSegments(segs: seq<string>, m: map<int, string>): map<int, string>
    decreases |segs|
  {
    if segs == [] then m
    else if Trim(segs[0]) == "" then DecodeSegments(segs[1..], m)
    else if segs[0] == "FIN" then m
    else DecodeSegments(segs[1..], DecodeStep(segs[0], m))
  }

  /** The store m after the receiving loop has read the line. */
  function Decode(line: string, m: map<int, string>): (r: map<int, string>)
    ensures forall k | k in m :: k in r && r[k] == m[k]
  {
    var segs := Split(line, "%0A");
    assert forall k | k in m :: k in DecodeSegments(segs, m) && DecodeSegments(segs, m)[k] == m[k] by {
      forall k | k in m
        ensures k in DecodeSegments(segs, m) && DecodeSegments(segs, m)[k] == m[k]
      {
        DecodeKeeps(segs, m, k);
      }
    }
    DecodeSegments(segs, m)
  }

  /** The receiving loop never overwrites or removes an entry the store
      already holds, whatever the line. */
  lemma {:induction false} DecodeKeeps(segs: seq<string>, m: map<int, string>, k: int)
    requires k in m
    ensures k in DecodeSegments(segs, m) && DecodeSegments(segs, m)[k] == m[k]
    decreases |segs|
  {
    if segs != [] && Trim(segs[0]) != "" && segs[0] != "FIN" {
      var m' := DecodeStep(segs[0], m);
      assert k in m' && m'[k] == m[k];
      DecodeKeeps(segs[1..], m', k);
    } else if segs != [] && Trim(segs[0]) == "" {
      DecodeKeeps(segs[1..], m, k);
    }
  }

  /** "FIN" is not blank, so it always ends the loop. */
  lemma FinEnds(rest: seq<string>, m: map<int, string>)
    ensures DecodeSegments(["FIN"] + rest, m) == m
  {
    TrimClean("FIN");
    assert (["FIN"] + rest)[0] == "FIN";
  }

  /** Nothing after "FIN" is read. */
  lemma {:induction false} DecodeStopsAtFin(pre: seq<string>, post: seq<string>, m: map<int, string>)
    ensures DecodeSegments(pre + ["FIN"] + post, m) == DecodeSegments(pre + ["FIN"], m)
    decreases |pre|
  {
    if pre == [] {
      assert pre + ["FIN"] + post == ["FIN"] + post;
      assert pre + ["FIN"] == ["FIN"] + [];
      FinEnds(post, m);
      FinEnds([], m);
    } else {
      var a := pre + ["FIN"] + post;
      var b := pre + ["FIN"];
      assert a[0] == b[0] == pre[0];
      assert a[1..] == pre[1..] + ["FIN"] + post;
      assert b[1..] == pre[1..] + ["FIN"];
      DecodeStopsAtFin(pre[1..], post, DecodeStep(pre[0], m));
      DecodeStopsAtFin(pre[1..], post, m);
    }
  }

  /** A value the codec carries unchanged: non-empty, without surrounding
      whitespace, without ':' and without the record terminator "%0A". */
  predicate Transferable(value: string)
  {
    && |value| > 0 && value[0] > ' ' && value[|value| - 1] > ' '
    && ':' !in value
    && forall j | 0 <= j < |value| :: !MatchAt(value, "%0A", j)
  }

  /** The texts of the records for the stored keys lo..hi, ascending. */
  function PairTexts(m: map<int, string>, lo: int, hi: int): seq<string>
    decreases hi - lo
  {
    if lo > hi then []
    else (if lo in m then [PairText(lo, m[lo])] else []) + PairTexts(m, lo + 1, hi)
  }

  /** The first "%0A" in a record followed by anything is its terminator. */
  lemma ItemTerminator(key: int, value: string, rest: string)
    requires Transferable(value)
    ensures IndexOf(PairText(key, value) + "%0A" + rest, "%0A") == |PairText(key, value)|
  {
    var kv := PairText(key, value);
    var s := kv + "%0A" + rest;
    var off := |IntToString(key)| + 1;
    IntToStringChars(key);
    forall j | 0 <= j < |kv|
      ensures !MatchAt(s, "%0A", j)
    {
      if j + 3 <= |s| {
        assert s[j..j + 3][0] == s[j];
        if j < off - 1 {
          assert s[j] == IntToString(key)[j];
          assert IntToString(key)[j] in IntToString(key);
        } else if j == off - 1 {
          assert s[j] == ':';
        } else if j + 3 <= |kv| {
          assert s[j..j + 3] == value[j - off..j - off + 3];
          assert !MatchAt(value, "%0A", j - off);
        } else if j == |kv| - 1 {
          assert s[j..j + 3][1] == s[|kv|] == '%';
        } else {
          assert s[j..j + 3][2] == s[|kv|] == '%';
        }
      }
    }
    assert s[|kv|..|kv| + 3] == "%0A";
    IndexOfFromIs(s, "%0A", 0, |kv|);
  }

  /** The sent line for lo..hi with lo stored splits off lo's record text
      first. */
  lemma SplitRecordsCons(m: map<int, string>, lo: int, hi: int)
    requires lo <= hi && lo in m && Transferable(m[lo])
    ensures SplitAll(Records(m, lo, hi) + "FIN", "%0A")
         == [PairText(lo, m[lo])] + SplitAll(Records(m, lo + 1, hi) + "FIN", "%0A")
  {
    var kv := PairText(lo, m[lo]);
    var rest := Records(m, lo + 1, hi) + "FIN";
    assert Records(m, lo, hi) + "FIN" == kv + "%0A" + rest;
    ItemTerminator(lo, m[lo], rest);
    SplitAllCons(kv, rest, "%0A");
  }

  /** Splitting the sent line at "%0A" yields the record texts, then "FIN". */
  lemma {:induction false} SplitRecords(m: map<int, string>, lo: int, hi: int)
    requires forall k | k in m && lo <= k <= hi :: Transferable(m[k])
    ensures SplitAll(Records(m, lo, hi) + "FIN", "%0A") == PairTexts(m, lo, hi) + ["FIN"]
    decreases hi - lo
  {
    if lo > hi {
      assert Records(m, lo, hi) + "FIN" == "FIN";
      IndexOfNone("FIN", "%0A");
      assert PairTexts(m, lo, hi) + ["FIN"] == ["FIN"];
    } else {
      SplitRecords(m, lo + 1, hi);
      var rest := Records(m, lo + 1, hi) + "FIN";
      if lo in m {
        SplitRecordsCons(m, lo, hi);
      } else {
        assert Records(m, lo, hi) == Records(m, lo + 1, hi);
      }
    }
  }

  /** A record text ending in a non-blank character is its own trim. */
  lemma PairTextClean(key: int, value: string)
    requires |value| > 0 && value[|value| - 1] > ' '
    ensures Trim(PairText(key, value)) == PairText(key, value) != ""
  {
    var t := IntToString(key);
    var kv := PairText(key, value);
    assert kv[0] > ' ' by {
      IntToStringChars(key);
      assert kv[0] == t[0];
      assert t[0] in t;
    }
    assert kv[|kv| - 1] == value[|value| - 1];
    TrimClean(kv);
  }

  /** A record text is not "FIN": it starts with a digit or '-'. */
  lemma PairTextNotFin(key: int, value: string)
    ensures PairText(key, value) != "FIN"
  {
    var t := IntToString(key);
    var kv := PairText(key, value);
    assert kv[0] != 'F' by {
      IntToStringChars(key);
      assert kv[0] == t[0];
      assert t[0] in t;
    }
    assert "FIN"[0] == 'F';
  }

  /** A record text splits at ':' into the key's text and the value. */
  lemma PairTextSplits(key: int, value: string)
    requires Transferable(value)
    ensures Split(PairText(key, value), ":") == [IntToString(key), value]
  {
    var t := IntToString(key);
    assert ':' !in t by { IntToStringChars(key); }
    SplitTwo(t, value, ":");
  }

  /** The key's text and the value are their own trims, and the key's text
      parses back to the key. */
  lemma PairPartsClean(key: int, value: string)
    requires IsInt32(key) && Transferable(value)
    ensures Trim(IntToString(key)) == IntToString(key)
    ensures Trim(value) == value
    ensures ParseInt(IntToString(key)) == Some(key)
  {
    var t := IntToString(key);
    assert t[0] > ' ' && t[|t| - 1] > ' ' by {
      IntToStringChars(key);
      assert t[0] in t;
    }
    TrimClean(t);
    TrimClean(value);
    ParseIntToString(key);
  }

  /** The receiving loop reads a record text back as its key and value. */
  lemma DecodePair(key: int, value: string, m: map<int, string>)
    requires IsInt32(key) && Transferable(value)
    ensures DecodeStep(PairText(key, value), m) == Inserted(m, key, value)
  {
    var parts := Split(PairText(key, value), ":");
    assert parts == [IntToString(key), value] by { PairTextSplits(key, value); }
    PairPartsClean(key, value);
  }

  /** A segment that is neither blank nor "FIN" is handled by DecodeStep
      before the rest are read. */
  lemma DecodeCons(seg: string, rest: seq<string>, m: map<int, string>)
    requires Trim(seg) != "" && seg != "FIN"
    ensures DecodeSegments([seg] + rest, m) == DecodeSegments(rest, DecodeStep(seg, m))
  {
    var segs := [seg] + rest;
    assert segs[0] == seg && segs[1..] == rest;
  }

  /** Reading a record text first inserts its pair, then reads the rest. */
  lemma DecodeConsPair(key: int, value: string, rest: seq<string>, m: map<int, string>)
    requires IsInt32(key) && Transferable(value)
    ensures DecodeSegments([PairText(key, value)] + rest, m) == DecodeSegments(rest, Inserted(m, key, value))
  {
    var kv := PairText(key, value);
    assert Trim(kv) != "" by { PairTextClean(key, value); }
    assert kv != "FIN" by { PairTextNotFin(key, value); }
    DecodeCons(kv, rest, m);
    DecodePair(key, value, m);
  }

  /** Reading the record texts and "FIN" into d inserts every entry of m in
      lo..hi that d does not already hold. */
  lemma {:induction false} DecodePairTexts(m: map<int, string>, lo: int, hi: int, d: map<int, string>)
    requires forall k | k in m && lo <= k <= hi :: IsInt32(k) && Transferable(m[k])
    ensures DecodeSegments(PairTexts(m, lo, hi) + ["FIN"], d) == Merged(d, Restrict(m, lo, hi))
    decreases hi - lo
  {
    if lo > hi {
      DecodeNoPairs(m, lo, hi, d);
    } else if lo in m {
      DecodePairTexts(m, lo + 1, hi, Inserted(d, lo, m[lo]));
      DecodeFirstPair(m, lo, hi, d);
    } else {
      DecodePairTexts(m, lo + 1, hi, d);
      assert PairTexts(m, lo, hi) == PairTexts(m, lo + 1, hi);
      RestrictSkip(m, lo, hi);
    }
  }

  /** The base case of DecodePairTexts: only "FIN" is read. */
  lemma DecodeNoPairs(m: map<int, string>, lo: int, hi: int, d: map<int, string>)
    requires lo > hi
    ensures DecodeSegments(PairTexts(m, lo, hi) + ["FIN"], d) == Merged(d, Restrict(m, lo, hi))
  {
    calc {
      DecodeSegments(PairTexts(m, lo, hi) + ["FIN"], d);
    == { assert PairTexts(m, lo, hi) + ["FIN"] == ["FIN"] + []; FinEnds([], d); }
      d;
    == { MergeEmptyRange(m, lo, hi, d); }
      Merged(d, Restrict(m, lo, hi));
    }
  }

  /** Merging an empty range changes nothing. */
  lemma MergeEmptyRange(m: map<int, string>, lo: int, hi: int, d: map<int, string>)
    requires lo > hi
    ensures Merged(d, Restrict(m, lo, hi)) == d
  {
    var e := Restrict(m, lo, hi);
    assert e.Keys == {};
    assert Merged(d, e).Keys == d.Keys;
  }

  /** The step of DecodePairTexts for a stored key lo. */
  lemma DecodeFirstPair(m: map<int, string>, lo: int, hi: int, d: map<int, string>)
    requires lo <= hi && lo in m && IsInt32(lo) && Transferable(m[lo])
    requires DecodeSegments(PairTexts(m, lo + 1, hi) + ["FIN"], Inserted(d, lo, m[lo]))
      == Merged(Inserted(d, lo, m[lo]), Restrict(m, lo + 1, hi))
    ensures DecodeSegments(PairTexts(m, lo, hi) + ["FIN"], d) == Merged(d, Restrict(m, lo, hi))
  {
    var rest := PairTexts(m, lo + 1, hi) + ["FIN"];
    assert PairTexts(m, lo, hi) + ["FIN"] == [PairText(lo, m[lo])] + rest;
    DecodeConsPair(lo, m[lo], rest, d);
    MergeNext(m, lo, hi, d);
  }

  /** A key the map lacks adds nothing to the restriction. */
  lemma RestrictSkip(m: map<int, string>, lo: int, hi: int)
    requires lo !in m
    ensures Restrict(m, lo + 1, hi) == Restrict(m, lo, hi)
  {
    assert Restrict(m, lo + 1, hi).Keys == Restrict(m, lo, hi).Keys;
  }

  /** Inserting lo's entry first and merging the rest of lo..hi is merging
      all of lo..hi. */
  lemma MergeNext(m: map<int, string>, lo: int, hi: int, d: map<int, string>)
    requires lo <= hi && lo in m
    ensures Merged(Inserted(d, lo, m[lo]), Restrict(m, lo + 1, hi)) == Merged(d, Restrict(m, lo, hi))
  {
    var a := Merged(Inserted(d, lo, m[lo]), Restrict(m, lo + 1, hi));
    var b := Merged(d, Restrict(m, lo, hi));
    assert a.Keys == b.Keys;
    forall k | k in a
      ensures a[k] == b[k]
    {
    }
  }

  /** The codec's round trip: reading the line sent for a range into a
      store d adds exactly the sender's entries in that range that d lacks,
      provided every sent key is a Java int and every sent value is
      Transferable. */
  lemma TransferRoundTrip(m: map<int, string>, range: Range, d: map<int, string>)
    requires forall k | k in m && range.start <= k <= range.end :: IsInt32(k) && Transferable(m[k])
    ensures Decode(Records(m, range.start, range.end) + "FIN", d) == Merged(d, Restrict(m, range.start, range.end))
  {
    var line := Records(m, range.start, range.end) + "FIN";
    SplitRecords(m, range.start, range.end);
    var segs := SplitAll(line, "%0A");
    assert segs[|segs| - 1] == "FIN";
    assert Split(line, "%0A") == segs;
    DecodePairTexts(m, range.start, range.end, d);
  }

  /** Into an empty store the round trip yields exactly the sent range. */
  lemma TransferIntoEmpty(m: map<int, string>, range: Range)
    requires forall k | k in m && range.start <= k <= range.end :: IsInt32(k) && Transferable(m[k])
    ensures Decode(Records(m, range.start, range.end) + "FIN", map[]) == Restrict(m, range.start, range.end)
  {
    TransferRoundTrip(m, range, map[]);
    assert Merged(map[], Restrict(m, range.start, range.end)) == Restrict(m, range.start, range.end);
  }

  /** The receiving loop (receiveKeys of both servers): splits the line at
      "%0A" and handles the segments in order until "FIN". */
  method ReceiveInto(store: Store, received: string)
    modifies store
    ensures store.entries == Decode(received, old(store.entries))
  {
    var lines := Split(received, "%0A");
    ghost var target := Decode(received, store.entries);
    assert lines[0..] == lines;
    var i := 0;
    while i < |lines|
      invariant 0 <= i <= |lines|
      invariant DecodeSegments(lines[i..], store.entries) == target
    {
      var line := lines[i];
      assert lines[i..][0] == line && lines[i..][1..] == lines[i + 1..];
      if Trim(line) == "" {
        i := i + 1;
        continue;
      }
      if line == "FIN" {
        break;
      }
      var parts := Split(line, ":");
      if |parts| < 2 {
        i := i + 1;
        continue;
      }
      var key := ParseInt(Trim(parts[0]));
      if key.Some? {
        var value := Trim(parts[1]);
        var _ := store.Insert(key.value, value);
      }
      i := i + 1;
    }
  }

  // ---------------------------------------------------------------------
  // Deletion after acknowledgement

  /** deleteKeys: deletes every key from range.start up to range.end; a
      wrapping range deletes nothing. */
  method DeleteRange(store: Store, range: Range)
    modifies store
    ensures store.entries == Outside(old(store.entries), range.start, range.end)
  {
    var key := range.start;
    while key <= range.end
      invariant key == range.start || key <= range.end + 1
      invariant store.entries == Outside(old(store.entries), range.start, key - 1)
      decreases range.end - key
    {
      var _ := store.Delete(key);
      key := key + 1;
    }
  }

  /** What the sender deletes and what it sent partition its store: no
      entry is lost and none is kept on both sides. */
  lemma SendAndDeletePartition(m: map<int, string>, lo: int, hi: int)
    ensures Outside(m, lo, hi).Keys !! Restrict(m, lo, hi).Keys
    ensures Merged(Outside(m, lo, hi), Restrict(m, lo, hi)) == m
  {
    assert Merged(Outside(m, lo, hi), Restrict(m, lo, hi)).Keys == m.Keys;
  }

  /** A wrapping range deletes nothing. */
  lemma WrappingRangeDeletesNothing(m: map<int, string>, range: Range)
    requires range.start > range.end
    ensures Outside(m, range.start, range.end) == m
  {
  }
}
