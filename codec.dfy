/**
 * The external form of a coverage store, written and read as a stream of
 * tokens: `TInt` and `TLong` are what `DataOutput.writeInt` / `writeLong`
 * put on the stream, `TUtf` a class name written by `writeUTF`, and
 * `TBoolRow` one row written by the row codec (`null`, empty and populated
 * rows are all distinct tokens).
 *
 * Layout: the number of classes, then per class its name, its stamp, its
 * row count and its rows.
 */
module Codec {
  import opened Wrappers
  import opened CoverageMatrix
  import opened Holders

  /** Java's `int`. */
  newtype int32 = x: int | -0x8000_0000 <= x < 0x8000_0000

  const MaxInt32: int := 0x7fff_ffff

  datatype Token = TInt(i: int32) | TLong(l: int64) | TUtf(s: string) | TBoolRow(row: Row)

  /** Why reading fails: the stream ends early (EOFException), a token of
    * another kind stands where one is expected (a misread stream), or a
    * count is negative (`new HashMap(size)` and `new boolean[length][]`
    * throw on it). */
  datatype DecodeError = EndOfStream | UnexpectedToken | NegativeCount

  type StoreMap = map<string, seq<Holder>>

  // ---------------------------------------------------------------- writing

  function EncodeRows(m: Matrix): (ts: seq<Token>)
    ensures |ts| == |m|
    ensures forall c :: 0 <= c < |m| ==> ts[c] == TBoolRow(m[c])
  {
    seq(|m|, c requires 0 <= c < |m| => TBoolRow(m[c]))
  }

  /** One class record: name, stamp, row count, rows. */
  function EncodeEntry(name: string, h: Holder): (ts: seq<Token>)
    requires |h.coverage| <= MaxInt32
    ensures |ts| == 3 + |h.coverage|
    ensures ts[0] == TUtf(name) && ts[1] == TLong(h.stamp) && ts[2] == TInt(|h.coverage| as int32)
  {
    [TUtf(name), TLong(h.stamp), TInt(|h.coverage| as int32)] + EncodeRows(h.coverage)
  }

  /** Every key of `order` has a holder whose row count fits an `int`. */
  predicate Encodable(order: seq<string>, cm: map<string, Holder>)
  {
    forall k :: k in order ==> k in cm && |cm[k].coverage| <= MaxInt32
  }

  /** The records of the keys of `order`, one after the other. */
  function EncodeEntries(order: seq<string>, cm: map<string, Holder>): seq<Token>
    requires Encodable(order, cm)
  {
    if order == [] then [] else EncodeEntry(order[0], cm[order[0]]) + EncodeEntries(order[1..], cm)
  }

  /** The whole stream `writeExternal` produces for the consolidated holders
    * `cm`, visiting the keys in `order`. */
  function Encode(order: seq<string>, cm: map<string, Holder>): seq<Token>
    requires |order| <= MaxInt32 && Encodable(order, cm)
  {
    [TInt(|order| as int32)] + EncodeEntries(order, cm)
  }

  /** The layout of the stream: the class count first, then one record per
    * key of `order`, each at least three tokens long, the first beginning
    * with the first key's name; nothing is written for no keys. */
  lemma {:induction false} EncodeLayout(order: seq<string>, cm: map<string, Holder>)
    requires |order| <= MaxInt32 && Encodable(order, cm)
    ensures var ts, es := Encode(order, cm), EncodeEntries(order, cm);
      && ts[0] == TInt(|order| as int32) && ts[1..] == es
      && |es| >= 3 * |order|
      && (order == [] <==> es == [])
      && (order != [] ==> es[0] == TUtf(order[0]))
    decreases |order|
  {
    if order != [] {
      EncodableTail(order, cm);
      EncodeLayout(order[1..], cm);
    }
  }

  /** The records of every key of `order`, after the count, are the whole
    * encoding. */
  lemma EncodeWhole(order: seq<string>, cm: map<string, Holder>, records: seq<Token>)
    requires |order| <= MaxInt32 && Encodable(order, cm) && Encodable(order[..|order|], cm)
    requires records == EncodeEntries(order[..|order|], cm)
    ensures [TInt(|order| as int32)] + records == Encode(order, cm)
  {
    assert order[..|order|] == order;
  }

  lemma {:induction false} EncodeEntriesAppend(a: seq<string>, b: seq<string>, cm: map<string, Holder>)
    requires Encodable(a + b, cm)
    ensures Encodable(a, cm) && Encodable(b, cm)
    ensures EncodeEntries(a + b, cm) == EncodeEntries(a, cm) + EncodeEntries(b, cm)
  {
    EncodableAppend(a, b, cm);
    if a != [] {
      assert (a + b)[1..] == a[1..] + b;
      EncodableTail(a + b, cm);
      EncodeEntriesAppend(a[1..], b, cm);
      assert (a + b)[0] == a[0];
    } else {
      assert a + b == b;
    }
  }

  lemma EncodableAppend(a: seq<string>, b: seq<string>, cm: map<string, Holder>)
    requires Encodable(a + b, cm)
    ensures Encodable(a, cm) && Encodable(b, cm)
  {
    assert forall k :: k in a ==> k in a + b;
    assert forall k :: k in b ==> k in a + b;
  }

  lemma EncodableTail(order: seq<string>, cm: map<string, Holder>)
    requires Encodable(order, cm) && order != []
    ensures Encodable(order[1..], cm)
  {
    assert forall k :: k in order[1..] ==> k in order;
  }

  /** Writing one more key of `order` appends its record. */
  lemma EncodeEntriesSnoc(order: seq<string>, i: nat, cm: map<string, Holder>)
    requires Encodable(order, cm) && i < |order|
    ensures Encodable(order[..i], cm) && Encodable(order[..i + 1], cm)
    ensures EncodeEntries(order[..i + 1], cm) == EncodeEntries(order[..i], cm) + EncodeEntry(order[i], cm[order[i]])
  {
    assert order[i] in order;
    assert order[..i + 1] == order[..i] + [order[i]];
    assert forall k :: k in order[..i + 1] ==> k in order;
    EncodeEntriesAppend(order[..i], [order[i]], cm);
    assert EncodeEntries([order[i]], cm) == EncodeEntry(order[i], cm[order[i]]) + EncodeEntries([], cm);
  }

  // ---------------------------------------------------------------- reading

  /** Reads the rows of one matrix: `n` row tokens from `pos` on, appended to
    * `acc`; yields the matrix and the position after the last row. */
  function ReadRows(ts: seq<Token>, pos: nat, n: nat, acc: Matrix): (r: Result<(Matrix, nat), DecodeError>)
    decreases n
    ensures r.Success? ==> r.value.1 == pos + n && |r.value.0| == |acc| + n
    ensures r.Success? && n > 0 ==> r.value.1 <= |ts|
  {
    if n == 0 then Success((acc, pos))
    else if pos >= |ts| then Failure(EndOfStream)
    else if !ts[pos].TBoolRow? then Failure(UnexpectedToken)
    else ReadRows(ts, pos + 1, n - 1, acc + [ts[pos].row])
  }

  /** Reading rows succeeds exactly when the stream holds `n` row tokens from
    * `pos` on (reading none always succeeds), and then appends the rows they
    * carry, in stream order. */
  lemma {:induction false} ReadRowsContents(ts: seq<Token>, pos: nat, n: nat, acc: Matrix)
    ensures var r := ReadRows(ts, pos, n, acc);
      && (r.Success? <==> (n == 0 || pos + n <= |ts|) && forall t :: pos <= t < pos + n ==> ts[t].TBoolRow?)
      && (r.Success? ==> r.value.0[..|acc|] == acc && forall c :: |acc| <= c < |acc| + n ==> r.value.0[c] == ts[pos + c - |acc|].row)
    decreases n
  {
    if n > 0 && pos < |ts| && ts[pos].TBoolRow? {
      ReadRowsContents(ts, pos + 1, n - 1, acc + [ts[pos].row]);
      var r := ReadRows(ts, pos + 1, n - 1, acc + [ts[pos].row]);
      assert r.Success? ==> r.value.0[..|acc|] == r.value.0[..|acc| + 1][..|acc|];
    }
  }

  /** Reads one class record at `pos`: its name, holder and the position
    * after it. */
  function ReadEntry(ts: seq<Token>, pos: nat): (r: Result<(string, Holder, nat), DecodeError>)
    ensures r.Success? ==> r.value.2 == pos + 3 + |r.value.1.coverage| && r.value.2 <= |ts|
  {
    if pos >= |ts| then Failure(EndOfStream)
    else if !ts[pos].TUtf? then Failure(UnexpectedToken)
    else if pos + 1 >= |ts| then Failure(EndOfStream)
    else if !ts[pos + 1].TLong? then Failure(UnexpectedToken)
    else if pos + 2 >= |ts| then Failure(EndOfStream)
    else if !ts[pos + 2].TInt? then Failure(UnexpectedToken)
    else if ts[pos + 2].i < 0 then Failure(NegativeCount)
    else
      match ReadRows(ts, pos + 3, ts[pos + 2].i as nat, [])
      case Failure(e) => Failure(e)
      case Success((rows, end)) => Success((ts[pos].s, Holder(rows, ts[pos + 1].l), end))
  }

  /** Reads `n` class records from `pos` on into `acc`, a later record for a
    * name replacing an earlier one. */
  function ReadEntries(ts: seq<Token>, pos: nat, n: nat, acc: StoreMap): (r: Result<(StoreMap, nat), DecodeError>)
    decreases n
    ensures r.Success? ==> r.value.1 >= pos
    ensures r.Success? && n > 0 ==> r.value.1 <= |ts|
  {
    if n == 0 then Success((acc, pos))
    else
      match ReadEntry(ts, pos)
      case Failure(e) => Failure(e)
      case Success((name, h, next)) => ReadEntries(ts, next, n - 1, acc[name := [h]])
  }

  /** What `readExternal` reads from the stream: the store, one holder per
    * name, and how many tokens it took. */
  function Decode(ts: seq<Token>): (r: Result<(StoreMap, nat), DecodeError>)
    ensures ts == [] ==> r == Failure(EndOfStream)
    ensures r.Success? ==> ts[0].TInt? && ts[0].i >= 0
    ensures r.Success? ==> 1 <= r.value.1 <= |ts|
  {
    if |ts| == 0 then Failure(EndOfStream)
    else if !ts[0].TInt? then Failure(UnexpectedToken)
    else if ts[0].i < 0 then Failure(NegativeCount)
    else ReadEntries(ts, 1, ts[0].i as nat, map[])
  }

  /** `readExternal`'s loops: reads the class count, then each record's name,
    * stamp, row count and rows, and puts a one-holder list under the name. */
  method DecodeStore(input: seq<Token>) returns (r: Result<(StoreMap, nat), DecodeError>)
    ensures r == Decode(input)
  {
    if |input| == 0 {
      return Failure(EndOfStream);
    }
    if !input[0].TInt? {
      return Failure(UnexpectedToken);
    }
    var size := input[0].i;
    if size < 0 {
      return Failure(NegativeCount);
    }
    var coverageMap: StoreMap := map[];
    var pos: nat := 1;
    for i := 0 to size as int
      invariant ReadEntries(input, pos, size as int - i, coverageMap) == Decode(input)
    {
      if pos >= |input| {
        return Failure(EndOfStream);
      } else if !input[pos].TUtf? {
        return Failure(UnexpectedToken);
      }
      var classVMName := input[pos].s;
      if pos + 1 >= |input| {
        return Failure(EndOfStream);
      } else if !input[pos + 1].TLong? {
        return Failure(UnexpectedToken);
      }
      var stamp := input[pos + 1].l;
      if pos + 2 >= |input| {
        return Failure(EndOfStream);
      } else if !input[pos + 2].TInt? {
        return Failure(UnexpectedToken);
      }
      var length := input[pos + 2].i;
      if length < 0 {
        return Failure(NegativeCount);
      }
      ghost var start := pos + 3;
      var coverage: Matrix := [];
      pos := pos + 3;
      for c := 0 to length as int
        invariant pos == start + c
        invariant ReadRows(input, pos, length as int - c, coverage) == ReadRows(input, start, length as nat, [])
      {
        if pos >= |input| {
          return Failure(EndOfStream);
        } else if !input[pos].TBoolRow? {
          return Failure(UnexpectedToken);
        }
        coverage := coverage + [input[pos].row];
        pos := pos + 1;
      }
      coverageMap := coverageMap[classVMName := [Holder(coverage, stamp)]];
    }
    return Success((coverageMap, pos));
  }

  // ------------------------------------------------------------ round trip

  /** `ts` holds `xs` from `pos` on. */
  predicate At(ts: seq<Token>, pos: nat, xs: seq<Token>)
  {
    pos + |xs| <= |ts| && forall j :: 0 <= j < |xs| ==> ts[pos + j] == xs[j]
  }

  lemma {:induction false} ReadEncodedRows(ts: seq<Token>, pos: nat, m: Matrix, acc: Matrix)
    requires At(ts, pos, EncodeRows(m))
    ensures ReadRows(ts, pos, |m|, acc) == Success((acc + m, pos + |m|))
    decreases |m|
  {
    if m == [] {
      assert acc + m == acc;
    } else {
      var e, e' := EncodeRows(m), EncodeRows(m[1..]);
      assert ts[pos + 0] == e[0];
      forall j | 0 <= j < |e'|
        ensures ts[pos + 1 + j] == e'[j]
      {
        assert ts[pos + (j + 1)] == e[j + 1];
      }
      ReadEncodedRows(ts, pos + 1, m[1..], acc + [m[0]]);
      assert acc + [m[0]] + m[1..] == acc + m;
    }
  }

  /** A record written at `pos` reads back as the name and holder written,
    * ending where the record ends. */
  lemma ReadEncodedEntry(ts: seq<Token>, pos: nat, name: string, h: Holder)
    requires |h.coverage| <= MaxInt32 && At(ts, pos, EncodeEntry(name, h))
    ensures ReadEntry(ts, pos) == Success((name, h, pos + |EncodeEntry(name, h)|))
  {
    AtHeader(ts, pos, name, h);
    ReadHeaderAndRows(ts, pos, name, h);
  }

  lemma AtHeader(ts: seq<Token>, pos: nat, name: string, h: Holder)
    requires |h.coverage| <= MaxInt32 && At(ts, pos, EncodeEntry(name, h))
    ensures pos + 3 <= |ts| && ts[pos] == TUtf(name) && ts[pos + 1] == TLong(h.stamp)
    ensures ts[pos + 2] == TInt(|h.coverage| as int32)
    ensures At(ts, pos + 3, EncodeRows(h.coverage))
  {
    var header := [TUtf(name), TLong(h.stamp), TInt(|h.coverage| as int32)];
    AtSplit(ts, pos, header, EncodeRows(h.coverage));
    assert ts[pos + 0] == header[0] && ts[pos + 1] == header[1] && ts[pos + 2] == header[2];
  }

  lemma ReadHeaderAndRows(ts: seq<Token>, pos: nat, name: string, h: Holder)
    requires |h.coverage| <= MaxInt32
    requires pos + 3 <= |ts| && ts[pos] == TUtf(name) && ts[pos + 1] == TLong(h.stamp)
    requires ts[pos + 2] == TInt(|h.coverage| as int32)
    requires At(ts, pos + 3, EncodeRows(h.coverage))
    ensures ReadEntry(ts, pos) == Success((name, h, pos + 3 + |h.coverage|))
  {
    ReadEncodedRows(ts, pos + 3, h.coverage, []);
    assert [] + h.coverage == h.coverage;
  }

  lemma AtMiddle(a: seq<Token>, b: seq<Token>, c: seq<Token>)
    ensures At(a + b + c, |a|, b)
  {
  }

  lemma AtSplit(ts: seq<Token>, pos: nat, a: seq<Token>, b: seq<Token>)
    requires At(ts, pos, a + b)
    ensures At(ts, pos, a) && At(ts, pos + |a|, b)
  {
    forall j | 0 <= j < |a|
      ensures ts[pos + j] == a[j]
    {
      assert (a + b)[j] == a[j];
    }
    forall j | 0 <= j < |b|
      ensures ts[pos + |a| + j] == b[j]
    {
      assert ts[pos + (|a| + j)] == (a + b)[|a| + j];
    }
  }

  /** The entries read back for `order`, on top of `acc`. */
  function Restored(acc: StoreMap, order: seq<string>, cm: map<string, Holder>): StoreMap
  {
    acc + map k | k in order && k in cm :: [cm[k]]
  }

  lemma RestoredStep(acc: StoreMap, order: seq<string>, cm: map<string, Holder>)
    requires order != [] && order[0] in cm
    ensures Restored(acc[order[0] := [cm[order[0]]]], order[1..], cm) == Restored(acc, order, cm)
  {
    var a, b := Restored(acc[order[0] := [cm[order[0]]]], order[1..], cm), Restored(acc, order, cm);
    assert forall k :: k in order <==> k == order[0] || k in order[1..];
    assert a.Keys == b.Keys;
    SameMaps(a, b);
  }

  lemma SameMaps(a: StoreMap, b: StoreMap)
    requires a.Keys == b.Keys && forall k :: k in a ==> a[k] == b[k]
    ensures a == b
  {
  }

  /** One record read at `pos` leaves `n - 1` records to read after it. */
  lemma ReadEntriesStep(ts: seq<Token>, pos: nat, n: nat, acc: StoreMap, name: string, h: Holder, next: nat,
                         res: Result<(StoreMap, nat), DecodeError>)
    requires n > 0 && ReadEntry(ts, pos) == Success((name, h, next))
    requires ReadEntries(ts, next, n - 1, acc[name := [h]]) == res
    ensures ReadEntries(ts, pos, n, acc) == res
  {
  }

  lemma RestoredFresh(order: seq<string>, cm: map<string, Holder>)
    ensures Restored(map[], order, cm) == map k | k in order && k in cm :: [cm[k]]
  {
  }

  lemma RestoredNone(acc: StoreMap, cm: map<string, Holder>)
    ensures Restored(acc, [], cm) == acc
  {
    var none: seq<string> := [];
    assert forall k :: k !in none;
  }

  /** The store reading the records of `order` builds on top of `acc`, one
    * record at a time. */
  function ReadBack(acc: StoreMap, order: seq<string>, cm: map<string, Holder>): StoreMap
    requires forall k :: k in order ==> k in cm
    decreases |order|
  {
    if order == [] then acc
    else ReadBack(acc[order[0] := [cm[order[0]]]], order[1..], cm)
  }

  /** Reading the records back one by one gives every written key its
    * holder, later records winning over `acc`. */
  lemma {:induction false} ReadBackRestored(acc: StoreMap, order: seq<string>, cm: map<string, Holder>)
    requires forall k :: k in order ==> k in cm
    ensures ReadBack(acc, order, cm) == Restored(acc, order, cm)
    decreases |order|
  {
    if order == [] {
      RestoredNone(acc, cm);
    } else {
      assert forall k :: k in order[1..] ==> k in order;
      ReadBackRestored(acc[order[0] := [cm[order[0]]]], order[1..], cm);
      RestoredStep(acc, order, cm);
    }
  }

  /** The first record of an encoding reads back as written, and the rest of
    * the encoding follows it. */
  lemma ReadEncodedFirst(ts: seq<Token>, pos: nat, order: seq<string>, cm: map<string, Holder>)
    requires order != [] && Encodable(order, cm) && At(ts, pos, EncodeEntries(order, cm))
    ensures Encodable(order[1..], cm)
    ensures var e0 := EncodeEntry(order[0], cm[order[0]]);
      && ReadEntry(ts, pos) == Success((order[0], cm[order[0]], pos + |e0|))
      && At(ts, pos + |e0|, EncodeEntries(order[1..], cm))
      && |EncodeEntries(order, cm)| == |e0| + |EncodeEntries(order[1..], cm)|
  {
    var k0, rest := order[0], order[1..];
    assert forall k :: k in rest ==> k in order;
    var e0, es := EncodeEntry(k0, cm[k0]), EncodeEntries(rest, cm);
    assert EncodeEntries(order, cm) == e0 + es;
    AtSplit(ts, pos, e0, es);
    ReadEncodedEntry(ts, pos, k0, cm[k0]);
  }

  /** Reading the first record and then the records after it reads them
    * all. */
  lemma ReadEntriesCons(ts: seq<Token>, pos: nat, order: seq<string>, cm: map<string, Holder>, acc: StoreMap, next: nat)
    requires order != [] && Encodable(order, cm) && Encodable(order[1..], cm)
    requires ReadEntry(ts, pos) == Success((order[0], cm[order[0]], next))
    requires next - pos == |EncodeEntry(order[0], cm[order[0]])|
    requires ReadEntries(ts, next, |order| - 1, acc[order[0] := [cm[order[0]]]])
          == Success((ReadBack(acc[order[0] := [cm[order[0]]]], order[1..], cm), next + |EncodeEntries(order[1..], cm)|))
    ensures ReadEntries(ts, pos, |order|, acc) == Success((ReadBack(acc, order, cm), pos + |EncodeEntries(order, cm)|))
  {
    var k0 := order[0];
    var acc' := acc[k0 := [cm[k0]]];
    EntriesCons(order, cm, acc, pos, next);
    var res: Result<(StoreMap, nat), DecodeError> := Success((ReadBack(acc, order, cm), pos + |EncodeEntries(order, cm)|));
    assert ReadEntries(ts, next, |order| - 1, acc') == res;
    ReadEntriesStep(ts, pos, |order|, acc, k0, cm[k0], next, res);
  }

  /** Writing and reading back a non-empty `order` is its first key followed
    * by the rest. */
  lemma EntriesCons(order: seq<string>, cm: map<string, Holder>, acc: StoreMap, pos: nat, next: nat)
    requires order != [] && Encodable(order, cm) && Encodable(order[1..], cm)
    requires next - pos == |EncodeEntry(order[0], cm[order[0]])|
    ensures (ReadBack(acc[order[0] := [cm[order[0]]]], order[1..], cm), next + |EncodeEntries(order[1..], cm)|)
         == (ReadBack(acc, order, cm), pos + |EncodeEntries(order, cm)|)
  {
  }

  lemma {:induction false} ReadEncodedEntries(ts: seq<Token>, pos: nat, order: seq<string>, cm: map<string, Holder>, acc: StoreMap)
    requires Encodable(order, cm) && At(ts, pos, EncodeEntries(order, cm))
    ensures ReadEntries(ts, pos, |order|, acc) == Success((ReadBack(acc, order, cm), pos + |EncodeEntries(order, cm)|))
    decreases |order|
  {
    if order != [] {
      var k0 := order[0];
      ReadEncodedFirst(ts, pos, order, cm);
      var next := pos + |EncodeEntry(k0, cm[k0])|;
      ReadEncodedEntries(ts, next, order[1..], cm, acc[k0 := [cm[k0]]]);
      ReadEntriesCons(ts, pos, order, cm, acc, next);
    } else {
      assert EncodeEntries(order, cm) == [];
    }
  }

  /** Reading back what was written, with anything after it on the stream,
    * yields one holder per written key, equal to the holder written, and
    * stops exactly at the end of what was written. */
  lemma DecodeEncode(order: seq<string>, cm: map<string, Holder>, rest: seq<Token>)
    requires |order| <= MaxInt32 && Encodable(order, cm)
    ensures Decode(Encode(order, cm) + rest) == Success((Restored(map[], order, cm), |Encode(order, cm)|))
  {
    var ts := Encode(order, cm) + rest;
    var es := EncodeEntries(order, cm);
    AtMiddle([TInt(|order| as int32)], es, rest);
    ReadEncodedEntries(ts, 1, order, cm, map[]);
    ReadBackRestored(map[], order, cm);
  }

  // ------------------------------------------------------------ truncation

  lemma {:induction false} ReadRowsTruncated(ts: seq<Token>, pos: nat, n: nat, acc: Matrix, cut: nat)
    requires ReadRows(ts, pos, n, acc).Success? && cut <= |ts|
    ensures ReadRows(ts[..cut], pos, n, acc)
         == if n == 0 || pos + n <= cut then ReadRows(ts, pos, n, acc) else Failure(EndOfStream)
    decreases n
  {
    if n > 0 && pos < cut {
      ReadRowsTruncated(ts, pos + 1, n - 1, acc + [ts[pos].row], cut);
    }
  }

  lemma ReadEntryTruncated(ts: seq<Token>, pos: nat, cut: nat)
    requires ReadEntry(ts, pos).Success? && cut <= |ts|
    ensures ReadEntry(ts[..cut], pos)
         == if ReadEntry(ts, pos).value.2 <= cut then ReadEntry(ts, pos) else Failure(EndOfStream)
  {
    if pos + 3 <= cut {
      ReadRowsTruncated(ts, pos + 3, ts[pos + 2].i as nat, [], cut);
    }
  }

  lemma {:induction false} ReadEntriesTruncated(ts: seq<Token>, pos: nat, n: nat, acc: StoreMap, cut: nat)
    requires ReadEntries(ts, pos, n, acc).Success? && pos <= cut <= |ts|
    ensures ReadEntries(ts[..cut], pos, n, acc)
         == if ReadEntries(ts, pos, n, acc).value.1 <= cut then ReadEntries(ts, pos, n, acc) else Failure(EndOfStream)
    decreases n
  {
    if n > 0 {
      ReadEntryTruncated(ts, pos, cut);
      var (name, h, next) := ReadEntry(ts, pos).value;
      if next <= cut {
        ReadEntriesTruncated(ts, next, n - 1, acc[name := [h]], cut);
      } else {
        assert ReadEntries(ts, next, n - 1, acc[name := [h]]).value.1 >= next;
      }
    }
  }

  /** Reading looks at no token past those it consumes, and a stream cut
    * anywhere before that point fails with EndOfStream. */
  lemma DecodeTruncated(ts: seq<Token>, cut: nat)
    requires Decode(ts).Success? && cut <= |ts|
    ensures Decode(ts[..cut]) == if Decode(ts).value.1 <= cut then Decode(ts) else Failure(EndOfStream)
  {
    if cut > 0 {
      ReadEntriesTruncated(ts, 1, ts[0].i as nat, map[], cut);
    }
  }

  /** A written stream cut short by even one token cannot be read. */
  lemma TruncatedEncodingFails(order: seq<string>, cm: map<string, Holder>, cut: nat)
    requires |order| <= MaxInt32 && Encodable(order, cm)
    requires cut < |Encode(order, cm)|
    ensures Decode(Encode(order, cm)[..cut]) == Failure(EndOfStream)
  {
    var ts := Encode(order, cm);
    DecodeEncode(order, cm, []);
    assert ts + [] == ts;
    DecodeTruncated(ts, cut);
  }
}
