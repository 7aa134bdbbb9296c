/**
 * The whole run of `convert_image_pair`: parse the list file, optionally
 * shuffle the entries, write the labels store, then write the images store.
 * Each store is opened new for its pass.
 */
module Convert {
  import opened Wrappers
  import opened Manifest
  import opened Storage
  import opened Writers

  /** How a run ends. */
  datatype Outcome =
    | ParseFailed(error: ParseError)
    | SizeCheckFailed(mismatch: Mismatch)
    | Done(labelCount: nat, imageCount: nat)

  /**
   * A parse error stops the run before any store is opened. Otherwise the
   * labels store receives one record per entry and the images store the
   * records of the image pass, both in batches of `BATCH`; a size-check
   * failure leaves the images store with only its full batches committed.
   */
  method ConvertImagePairs<L>(listFile: seq<string>, toLabel: string -> Option<L>,
                              shuffle: bool, draw: nat -> nat,
                              checkSize: bool, decode: Decoder)
    returns (outcome: Outcome, entries: seq<Entry<L>>,
             labelsDb: Store?<Datum<L>>, imagesDb: Store?<Datum<L>>)
    ensures Parse(listFile, toLabel).Failure? ==>
      outcome == ParseFailed(Parse(listFile, toLabel).error) && labelsDb == null && imagesDb == null
    ensures Parse(listFile, toLabel).Success? ==>
      var parsed := Parse(listFile, toLabel).value;
      var scan := ScanImages(entries, decode, checkSize, 0, None);
      && |entries| == |parsed| && multiset(entries) == multiset(parsed)
      && (!shuffle ==> entries == parsed)
      && labelsDb != null && imagesDb != null && fresh(labelsDb) && fresh(imagesDb)
      && labelsDb.batches == Chunks(LabelRecords(entries))
      && (scan.mismatch.None? ==>
            outcome == Done(|entries|, |scan.records|) &&
            imagesDb.batches == Chunks(scan.records))
      && (scan.mismatch.Some? ==>
            outcome == SizeCheckFailed(scan.mismatch.value) &&
            imagesDb.batches == Chunks(scan.records[..FullPrefix(|scan.records|)]))
  {
    labelsDb, imagesDb := null, null;
    var parsed := ParseManifest(listFile, toLabel);
    if parsed.Failure? {
      return ParseFailed(parsed.error), [], null, null;
    }
    entries := parsed.value;
    if shuffle {
      entries := Shuffle(entries, draw);
    }

    labelsDb := new Store.Open();
    var labelCount := WriteLabels(labelsDb, entries);

    imagesDb := new Store.Open();
    var images := WriteImages(imagesDb, entries, decode, checkSize);
    match images
    case Completed(n) =>
      outcome := Done(labelCount, n);
    case Aborted(m) =>
      outcome := SizeCheckFailed(m);
  }
}
