/**
 * The two writer passes of `convert_image_pair`.
 *
 * The label pass writes one record per manifest entry into the labels
 * store. The image pass asks the decoder for each entry's image pair, skips
 * the entries that fail to decode, optionally insists that every decoded
 * image has the data size fixed by the first one, and writes the rest into
 * the images store. Both passes derive the key of entry `i` the same way and
 * commit a transaction every `BATCH` puts, with a final commit for a partial
 * last batch.
 */
module Writers {
  import opened Wrappers
  import opened Manifest
  import opened Keys
  import opened Storage

  /** The fields of the `Datum` message the passes fill; its serialisation is left abstract. */
  datatype Datum<L> = Datum(
    channels: int, height: int, width: int, encoded: bool,
    data: seq<bv8>, floatData: seq<L>, recordLabel: int, param: string)

  /** What the image decoder (`ReadImagesToDatum`) produces for one pair of files. */
  datatype Image = Image(channels: int, height: int, width: int, encoded: bool, data: seq<bv8>)

  /** The decoder, with the resize target and colour mode fixed: `None` when the pair cannot be read. */
  type Decoder = (string, string) -> Option<Image>

  /** The size the first decoded image fixes: channels times height times width. */
  function ExpectedSize(img: Image): int
  {
    img.channels * img.height * img.width
  }

  function Decode<L>(decode: Decoder, e: Entry<L>): Option<Image>
  {
    decode(e.sourceA, e.sourceB)
  }

  /** The label record of entry `lineId`: a 1x1x1 datum holding the label value, tagged with the index and the key. */
  function LabelRecord<L>(e: Entry<L>, lineId: nat): Record<Datum<L>>
  {
    var key := Key(lineId, e.sourceA, e.sourceB);
    Record(key, Datum(1, 1, 1, false, [], [e.labelValue], lineId, key))
  }

  /** Every label record, one per entry, in entry order. */
  function LabelRecords<L>(lines: seq<Entry<L>>): seq<Record<Datum<L>>>
  {
    seq(|lines|, i requires 0 <= i < |lines| => LabelRecord(lines[i], i))
  }

  /**
   * The label pass puts its keys in strictly increasing order while there
   * are at most 10^8 entries. (Keys never repeat at any size, by
   * `KeysUnique`; only the order needs the bound, since the key of index
   * 10^8 sorts before the key of index 10^8 - 1.)
   */
  lemma LabelKeysOrdered<L>(lines: seq<Entry<L>>)
    requires |lines| <= Pow10(KEY_WIDTH)
    ensures forall i, j :: 0 <= i < j < |lines| ==>
      LexLess(LabelRecords(lines)[i].key, LabelRecords(lines)[j].key)
  {
    forall i, j | 0 <= i < j < |lines|
      ensures LexLess(LabelRecords(lines)[i].key, LabelRecords(lines)[j].key)
    {
      KeysOrdered(i, lines[i].sourceA, lines[i].sourceB, j, lines[j].sourceA, lines[j].sourceB);
    }
  }

  /** The image record of entry `lineId`: the decoded image, tagged with the index and the key. */
  function ImageRecord<L>(e: Entry<L>, lineId: nat, img: Image): Record<Datum<L>>
  {
    var key := Key(lineId, e.sourceA, e.sourceB);
    Record(key, Datum(img.channels, img.height, img.width, img.encoded, img.data, [], lineId, key))
  }

  /** The run-level failure of the size check: the entry, the size fixed earlier and the data size found. */
  datatype Mismatch = Mismatch(lineId: nat, expected: int, actual: nat)

  /** What the image pass puts, in order, and whether the size check stopped it. */
  datatype ImageScan<L> = ImageScan(records: seq<Record<Datum<L>>>, mismatch: Option<Mismatch>)

  /**
   * The image pass from entry `from` on, with `dataSize` the size fixed so
   * far (`None` until the size check meets its first decoded image).
   */
  function ScanImages<L>(lines: seq<Entry<L>>, decode: Decoder, checkSize: bool,
                         from: nat, dataSize: Option<int>): ImageScan<L>
    requires from <= |lines|
    decreases |lines| - from
  {
    if from == |lines| then ImageScan([], None)
    else match Decode(decode, lines[from])
      case None => ScanImages(lines, decode, checkSize, from + 1, dataSize)
      case Some(img) =>
        if checkSize && dataSize.Some? && |img.data| != dataSize.value then
          ImageScan([], Some(Mismatch(from, dataSize.value, |img.data|)))
        else
          var fixed := if checkSize && dataSize.None? then Some(ExpectedSize(img)) else dataSize;
          var rest := ScanImages(lines, decode, checkSize, from + 1, fixed);
          ImageScan([ImageRecord(lines[from], from, img)] + rest.records, rest.mismatch)
  }

  /** Reference definition: the records of the entries in `from..to` that decode, in entry order. */
  function Decoded<L>(lines: seq<Entry<L>>, decode: Decoder, from: nat, to: nat): seq<Record<Datum<L>>>
    requires from <= to <= |lines|
    decreases |lines| - from
  {
    if from == to then []
    else match Decode(decode, lines[from])
      case None => Decoded(lines, decode, from + 1, to)
      case Some(img) => [ImageRecord(lines[from], from, img)] + Decoded(lines, decode, from + 1, to)
  }

  /** Number of entries in `from..to` the decoder cannot read. */
  function DecodeFailures<L>(lines: seq<Entry<L>>, decode: Decoder, from: nat, to: nat): nat
    requires from <= to <= |lines|
    decreases |lines| - from
  {
    if from == to then 0
    else (if Decode(decode, lines[from]).None? then 1 else 0) + DecodeFailures(lines, decode, from + 1, to)
  }

  /** Where the image pass stops: at the mismatching entry, or after the last entry. */
  function ScanEnd<L>(lines: seq<Entry<L>>, scan: ImageScan<L>): nat
  {
    match scan.mismatch
    case None => |lines|
    case Some(m) => m.lineId
  }

  /** The image pass puts exactly the decodable entries before the point where it stops. */
  lemma {:induction false} ScanIsDecoded<L>(lines: seq<Entry<L>>, decode: Decoder, checkSize: bool,
                                            from: nat, dataSize: Option<int>)
    requires from <= |lines|
    ensures var scan := ScanImages(lines, decode, checkSize, from, dataSize);
      from <= ScanEnd(lines, scan) <= |lines| &&
      scan.records == Decoded(lines, decode, from, ScanEnd(lines, scan))
    decreases |lines| - from
  {
    if from < |lines| {
      match Decode(decode, lines[from])
      case None =>
        ScanIsDecoded(lines, decode, checkSize, from + 1, dataSize);
      case Some(img) =>
        if !(checkSize && dataSize.Some? && |img.data| != dataSize.value) {
          var fixed := if checkSize && dataSize.None? then Some(ExpectedSize(img)) else dataSize;
          ScanIsDecoded(lines, decode, checkSize, from + 1, fixed);
        }
    }
  }

  /** Without the size check the pass never stops early: it puts every decodable entry. */
  lemma {:induction false} UncheckedScan<L>(lines: seq<Entry<L>>, decode: Decoder, from: nat, dataSize: Option<int>)
    requires from <= |lines|
    ensures ScanImages(lines, decode, false, from, dataSize) ==
      ImageScan(Decoded(lines, decode, from, |lines|), None)
    decreases |lines| - from
  {
    if from < |lines| {
      UncheckedScan(lines, decode, from + 1, dataSize);
    }
  }

  /** Decode failures and decoded records together account for every entry of the range. */
  lemma {:induction false} DecodedCount<L>(lines: seq<Entry<L>>, decode: Decoder, from: nat, to: nat)
    requires from <= to <= |lines|
    ensures |Decoded(lines, decode, from, to)| == (to - from) - DecodeFailures(lines, decode, from, to)
    decreases |lines| - from
  {
    if from < to {
      DecodedCount(lines, decode, from + 1, to);
    }
  }

  /**
   * Every decoded record is the image record of one decodable entry of the
   * range, and the records come in increasing entry order.
   */
  lemma {:induction false} DecodedOrigin<L>(lines: seq<Entry<L>>, decode: Decoder, from: nat, to: nat)
    requires from <= to <= |lines|
    ensures forall k :: 0 <= k < |Decoded(lines, decode, from, to)| ==>
      var r := Decoded(lines, decode, from, to)[k];
      from <= r.value.recordLabel < to &&
      Decode(decode, lines[r.value.recordLabel]).Some? &&
      r == ImageRecord(lines[r.value.recordLabel], r.value.recordLabel,
                       Decode(decode, lines[r.value.recordLabel]).value)
    ensures forall k, k' :: 0 <= k < k' < |Decoded(lines, decode, from, to)| ==>
      (Decoded(lines, decode, from, to)[k].value.recordLabel < Decoded(lines, decode, from, to)[k'].value.recordLabel)
    decreases |lines| - from
  {
    if from < to {
      DecodedOrigin(lines, decode, from + 1, to);
    }
  }

  /**
   * With the size check and a size already fixed at `k`, the pass runs to
   * the end exactly when every later decodable entry has `k` bytes of data;
   * otherwise it stops at the first one that does not.
   */
  lemma {:induction false} CheckedScan<L>(lines: seq<Entry<L>>, decode: Decoder, from: nat, k: int)
    requires from <= |lines|
    ensures var scan := ScanImages(lines, decode, true, from, Some(k));
      (scan.mismatch.None? <==>
        forall j :: from <= j < |lines| && Decode(decode, lines[j]).Some? ==>
          |Decode(decode, lines[j]).value.data| == k) &&
      (scan.mismatch.Some? ==>
        var m := scan.mismatch.value;
        from <= m.lineId < |lines| && m.expected == k &&
        Decode(decode, lines[m.lineId]).Some? &&
        m.actual == |Decode(decode, lines[m.lineId]).value.data| != k &&
        forall j :: from <= j < m.lineId && Decode(decode, lines[j]).Some? ==>
          |Decode(decode, lines[j]).value.data| == k)
    decreases |lines| - from
  {
    if from < |lines| {
      CheckedScan(lines, decode, from + 1, k);
    }
  }

  /** `i` is the first entry the decoder can read. */
  ghost predicate FirstDecodable<L>(lines: seq<Entry<L>>, decode: Decoder, i: nat)
  {
    i < |lines| && Decode(decode, lines[i]).Some? &&
    forall j :: 0 <= j < i ==> Decode(decode, lines[j]).None?
  }

  /**
   * Before any image is decoded the check has nothing to compare with: the
   * first decodable entry from `from` on is put unchecked and fixes the size.
   */
  lemma {:induction false} FirstImageFixesSize<L>(lines: seq<Entry<L>>, decode: Decoder, from: nat, f: nat)
    requires from <= f < |lines| && Decode(decode, lines[f]).Some?
    requires forall j :: from <= j < f ==> Decode(decode, lines[j]).None?
    ensures var img := Decode(decode, lines[f]).value;
      var rest := ScanImages(lines, decode, true, f + 1, Some(ExpectedSize(img)));
      ScanImages(lines, decode, true, from, None) ==
        ImageScan([ImageRecord(lines[f], f, img)] + rest.records, rest.mismatch)
    decreases f - from
  {
    if from < f {
      FirstImageFixesSize(lines, decode, from + 1, f);
    }
  }

  lemma {:induction false} NothingDecodable<L>(lines: seq<Entry<L>>, decode: Decoder, from: nat)
    requires from <= |lines|
    requires forall j :: from <= j < |lines| ==> Decode(decode, lines[j]).None?
    ensures ScanImages(lines, decode, true, from, None) == ImageScan([], None)
    decreases |lines| - from
  {
    if from < |lines| {
      NothingDecodable(lines, decode, from + 1);
    }
  }

  /**
   * The size check over a whole pass: it aborts exactly when some decodable
   * entry after the first decodable one has a data size other than the
   * channels x height x width of that first one. The first one's own data
   * size is never compared.
   */
  lemma SizeCheckVerdict<L>(lines: seq<Entry<L>>, decode: Decoder)
    ensures ScanImages(lines, decode, true, 0, None).mismatch.None? <==>
      forall i, j ::
        (0 <= i < j < |lines| && FirstDecodable(lines, decode, i) && Decode(decode, lines[j]).Some?) ==>
        |Decode(decode, lines[j]).value.data| == ExpectedSize(Decode(decode, lines[i]).value)
  {
    if f: nat :| FirstDecodable(lines, decode, f) {
      var size := ExpectedSize(Decode(decode, lines[f]).value);
      FirstImageFixesSize(lines, decode, 0, f);
      CheckedScan(lines, decode, f + 1, size);
      forall i: nat | FirstDecodable(lines, decode, i) ensures i == f {
      }
    } else {
      forall j | 0 <= j < |lines| ensures Decode(decode, lines[j]).None? {
        if Decode(decode, lines[j]).Some? {
          FirstDecodableExists(lines, decode, j);
        }
      }
      NothingDecodable(lines, decode, 0);
    }
  }

  lemma {:induction false} FirstDecodableExists<L>(lines: seq<Entry<L>>, decode: Decoder, j: nat)
    requires j < |lines| && Decode(decode, lines[j]).Some?
    ensures exists f :: FirstDecodable(lines, decode, f)
    decreases j
  {
    if forall k :: 0 <= k < j ==> Decode(decode, lines[k]).None? {
      assert FirstDecodable(lines, decode, j);
    } else {
      var k :| 0 <= k < j && Decode(decode, lines[k]).Some?;
      FirstDecodableExists(lines, decode, k);
    }
  }

  /**
   * The images store only ever receives keys the labels store also
   * receives, for the same entry; the reverse fails for entries that do not
   * decode.
   */
  lemma ImageKeysAreLabelKeys<L>(lines: seq<Entry<L>>, decode: Decoder, checkSize: bool)
    ensures forall r :: r in ScanImages(lines, decode, checkSize, 0, None).records ==>
      exists i :: (0 <= i < |lines| && r.key == LabelRecords(lines)[i].key &&
                   r.value.recordLabel == LabelRecords(lines)[i].value.recordLabel)
  {
    var scan := ScanImages(lines, decode, checkSize, 0, None);
    ScanIsDecoded(lines, decode, checkSize, 0, None);
    DecodedOrigin(lines, decode, 0, ScanEnd(lines, scan));
    forall r | r in scan.records
      ensures exists i :: (0 <= i < |lines| && r.key == LabelRecords(lines)[i].key &&
                           r.value.recordLabel == LabelRecords(lines)[i].value.recordLabel)
    {
      var k :| 0 <= k < |scan.records| && scan.records[k] == r;
      var i := r.value.recordLabel;
      assert r.key == LabelRecords(lines)[i].key;
    }
  }

  /**
   * The label pass: one put per entry, key and record label from the entry's
   * position, a commit and a fresh transaction each time the counter reaches
   * a multiple of `BATCH`, and a final commit only for a partial last batch.
   */
  method WriteLabels<L>(db: Store<Datum<L>>, lines: seq<Entry<L>>) returns (count: nat)
    requires !db.txnOpen && db.pending == []
    modifies db
    ensures count == |lines|
    ensures db.batches == old(db.batches) + Chunks(LabelRecords(lines))
    ensures db.pending == []
    ensures db.txnOpen <==> count % BATCH == 0
  {
    ghost var all := LabelRecords(lines);
    ghost var base := db.batches;
    db.NewTransaction();
    count := 0;
    var lineId := 0;
    while lineId < |lines|
      invariant lineId <= |lines| && count == lineId
      invariant Batched(db, base, all[..count])
    {
      var e := lines[lineId];
      var key := Key(lineId, e.sourceA, e.sourceB);
      var datum := Datum(1, 1, 1, false, [], [e.labelValue], lineId, key);
      assert all[..count + 1] == all[..count] + [Record(key, datum)];
      count := PutCounted(db, key, datum, count, base, all[..count]);
      lineId := lineId + 1;
    }
    assert all[..count] == all;
    FinishBatches(db, count, base, all);
  }

  /** How the image pass ends: after every entry, or aborted by the size check. */
  datatype ImagePassOutcome = Completed(count: nat) | Aborted(mismatch: Mismatch)

  /** The size-check state of the image pass as `ScanImages` sees it: `None` until a size is fixed. */
  function SizeSoFar(initialized: bool, dataSize: int): (s: Option<int>)
    ensures s.Some? <==> initialized
    ensures initialized ==> s.value == dataSize
  {
    if initialized then Some(dataSize) else None
  }

  /**
   * Progress of the image pass: having put `written` and reached entry
   * `lineId` with size state `dataSize`, the remaining scan completes the
   * scan of the whole pass.
   */
  ghost predicate ImagesSoFar<L>(lines: seq<Entry<L>>, decode: Decoder, checkSize: bool,
                                 lineId: nat, dataSize: Option<int>, written: seq<Record<Datum<L>>>)
  {
    lineId <= |lines| &&
    var rest := ScanImages(lines, decode, checkSize, lineId, dataSize);
    ScanImages(lines, decode, checkSize, 0, None) == ImageScan(written + rest.records, rest.mismatch)
  }

  /** An entry the decoder cannot read is skipped. */
  lemma ScanSkip<L>(lines: seq<Entry<L>>, decode: Decoder, checkSize: bool,
                    lineId: nat, dataSize: Option<int>, written: seq<Record<Datum<L>>>)
    requires ImagesSoFar(lines, decode, checkSize, lineId, dataSize, written)
    requires lineId < |lines| && Decode(decode, lines[lineId]).None?
    ensures ImagesSoFar(lines, decode, checkSize, lineId + 1, dataSize, written)
  {
  }

  /** A decoded image whose data size differs from the fixed size ends the pass with a mismatch. */
  lemma ScanAbort<L>(lines: seq<Entry<L>>, decode: Decoder, checkSize: bool,
                     lineId: nat, dataSize: Option<int>, written: seq<Record<Datum<L>>>, img: Image)
    requires ImagesSoFar(lines, decode, checkSize, lineId, dataSize, written)
    requires lineId < |lines| && Decode(decode, lines[lineId]) == Some(img)
    requires checkSize && dataSize.Some? && |img.data| != dataSize.value
    ensures ScanImages(lines, decode, checkSize, 0, None) ==
      ImageScan(written, Some(Mismatch(lineId, dataSize.value, |img.data|)))
  {
    assert written + [] == written;
  }

  /** Any other decoded image is put, and the first one fixes the size when the check is on. */
  lemma ScanPut<L>(lines: seq<Entry<L>>, decode: Decoder, checkSize: bool,
                   lineId: nat, dataSize: Option<int>, written: seq<Record<Datum<L>>>, img: Image)
    requires ImagesSoFar(lines, decode, checkSize, lineId, dataSize, written)
    requires lineId < |lines| && Decode(decode, lines[lineId]) == Some(img)
    requires !(checkSize && dataSize.Some? && |img.data| != dataSize.value)
    ensures ImagesSoFar(lines, decode, checkSize, lineId + 1,
                        if checkSize && dataSize.None? then Some(ExpectedSize(img)) else dataSize,
                        written + [ImageRecord(lines[lineId], lineId, img)])
  {
    var fixed := if checkSize && dataSize.None? then Some(ExpectedSize(img)) else dataSize;
    var rest := ScanImages(lines, decode, checkSize, lineId + 1, fixed);
    var r := ImageRecord(lines[lineId], lineId, img);
    assert written + ([r] + rest.records) == (written + [r]) + rest.records;
  }

  /** After the last entry nothing is left to put. */
  lemma ScanDone<L>(lines: seq<Entry<L>>, decode: Decoder, checkSize: bool,
                    dataSize: Option<int>, written: seq<Record<Datum<L>>>)
    requires ImagesSoFar(lines, decode, checkSize, |lines|, dataSize, written)
    ensures ScanImages(lines, decode, checkSize, 0, None) == ImageScan(written, None)
  {
    assert written + [] == written;
  }

  /**
   * The image pass. A completed pass has committed every record of
   * `ScanImages` in batches of `BATCH`; an aborted one has committed the
   * full batches before the mismatch and leaves the rest in its open,
   * never-committed transaction.
   */
  method WriteImages<L>(db: Store<Datum<L>>, lines: seq<Entry<L>>, decode: Decoder, checkSize: bool)
    returns (outcome: ImagePassOutcome)
    requires !db.txnOpen && db.pending == []
    modifies db
    ensures var scan := ScanImages(lines, decode, checkSize, 0, None);
      var n := |scan.records|;
      match scan.mismatch
      case None =>
        && outcome == Completed(n)
        && db.batches == old(db.batches) + Chunks(scan.records)
        && db.pending == []
        && (db.txnOpen <==> n % BATCH == 0)
      case Some(m) =>
        && outcome == Aborted(m)
        && db.batches == old(db.batches) + Chunks(scan.records[..FullPrefix(n)])
        && db.txnOpen && db.pending == scan.records[FullPrefix(n)..]
  {
    ghost var written: seq<Record<Datum<L>>> := [];
    ghost var base := db.batches;
    db.NewTransaction();
    var count := 0;
    var dataSize := 0;
    var dataSizeInitialized := false;
    var lineId := 0;
    while lineId < |lines|
      invariant count == |written|
      invariant ImagesSoFar(lines, decode, checkSize, lineId, SizeSoFar(dataSizeInitialized, dataSize), written)
      invariant Batched(db, base, written)
    {
      var e := lines[lineId];
      var key := Key(lineId, e.sourceA, e.sourceB);
      var status := decode(e.sourceA, e.sourceB);
      if status.None? {
        ScanSkip(lines, decode, checkSize, lineId, SizeSoFar(dataSizeInitialized, dataSize), written);
        lineId := lineId + 1;
        continue;
      }
      var img := status.value;
      ghost var size := SizeSoFar(dataSizeInitialized, dataSize);
      if checkSize {
        if !dataSizeInitialized {
          dataSize := img.channels * img.height * img.width;
          dataSizeInitialized := true;
        } else if |img.data| != dataSize {
          ScanAbort(lines, decode, checkSize, lineId, size, written, img);
          return Aborted(Mismatch(lineId, dataSize, |img.data|));
        }
      }
      var datum := Datum(img.channels, img.height, img.width, img.encoded, img.data, [], lineId, key);
      ScanPut(lines, decode, checkSize, lineId, size, written, img);
      count := PutCounted(db, key, datum, count, base, written);
      written := written + [Record(key, datum)];
      lineId := lineId + 1;
    }
    ScanDone(lines, decode, checkSize, SizeSoFar(dataSizeInitialized, dataSize), written);
    FinishBatches(db, count, base, written);
    outcome := Completed(count);
  }
}
