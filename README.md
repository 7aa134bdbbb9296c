# convert_image_pair, modelled in Dafny

`convert_image_pair` is a Caffe command-line tool. It reads a list file whose
lines name two image files and a numeric label, and it writes two key-value
stores (LMDB or LevelDB):

- a **labels store**, with one 1x1x1 `Datum` per line holding the label;
- an **images store**, with one `Datum` per image pair the decoder can read.

Both stores key the record of entry `i` as
`format_int(i, 8) + "_" + sourceA + "_" + sourceB`. Both commit their
transaction every 1000 puts, and once more at the end for a partial last
batch.

This project models the tool's logic and proves what it guarantees:

- `tokenizer.dfy`: the single-character tokenizer `split`. It is a
  specification function on the C-string view of the input, plus the
  imperative two-loop method proved equal to it. Proved laws: token count,
  separator-free tokens, and split/join round trips.
- `manifest.dfy`: the list-file reader. Each line must give exactly three
  tokens, and the label token goes through a label conversion. The first bad
  line stops parsing. It also holds the optional Fisher-Yates shuffle.
- `keys.dfy`: `format_int` as an assumed contract, and the record key.
  Proved: the key reads back to its index, keys of different entries
  always differ, and keys sort in entry order below 10^8 entries.
- `storage.dfy`: the store as a class holding its committed batches and the
  puts pending in its open transaction. Also the batching policy: counted
  puts, a commit at every multiple of `BATCH` (1000), and a final commit for
  a partial batch. Proved: sizes, count and round trip of the committed
  batches.
- `writers.dfy`: the label pass and the image pass as methods over a
  `Store`. The image pass skips pairs that do not decode and runs the
  optional size check. The methods are proved against the pure scan
  `ScanImages`, which is itself characterised by lemmas.
- `convert.dfy`: the whole run. Parse, optionally shuffle, then the labels
  store, then the images store.
- `wrappers.dfy`: `Option` and `Result`.

Where the code and its description differ, the model follows the code:

- `split` cuts at every single space. Runs of spaces are not merged, and an
  empty line gives one empty token, so an empty line is rejected rather than
  skipped.
- The line number in the "can't find 3 tokens" error is always 0, because
  `line_no` is initialised and never advanced.
- The size check compares later images against channels x height x width of
  the first decoded image, and never checks that first image's own data.

## Model

| member | source | states |
|---|---|---|
| Tokenizer.SplitOn | tools/convert_image_pair.cpp:49-57 | reference definition of the tokens of a NUL-free string, cut at every separator; described by SplitOnCount, SplitOnSeparatorFree, JoinSplitOn and SplitOnJoin |
| Tokenizer.Split | tools/convert_image_pair.cpp:46-60 | the two-loop tokenizer returns exactly the tokens of the C-string view of its input, and at least one |
| Tokenizer.ScanToken | tools/convert_image_pair.cpp:53-55 | the inner loop stops at the first separator or terminator after `begin`, and crosses no separator |
| Tokenizer.ScanRound | tools/convert_image_pair.cpp:51-57 | one round of the outer loop: pushing `begin..str` either finishes the split at the terminator or leaves the tokens after the separator to go |
| Tokenizer.TokensCount | tools/convert_image_pair.cpp:46-60 | on a NUL-free string, `split` gives one token more than there are separators, no token holds the separator, and joining the tokens with it gives the input back |
| Tokenizer.SplitOnCount | tools/convert_image_pair.cpp:49-57 | the token count is the separator count plus one |
| Tokenizer.SplitOnSeparatorFree | tools/convert_image_pair.cpp:53-56 | no token contains the separator |
| Tokenizer.SplitOnNulFree | tools/convert_image_pair.cpp:53-56 | tokens of a NUL-free string are NUL-free |
| Tokenizer.JoinSplitOn | tools/convert_image_pair.cpp:49-57 | joining the tokens with the separator reconstructs the input |
| Tokenizer.SplitOnJoin | tools/convert_image_pair.cpp:49-57 | splitting the join of separator-free tokens gives those tokens back |
| Tokenizer.CString | tools/convert_image_pair.cpp:97 | `c_str()` exposes the prefix before the first NUL, which is NUL-free |
| Manifest.ParseLine | tools/convert_image_pair.cpp:97-104 | reference definition of one line: three tokens and a readable label, or the error; described by LineShape, EmptyLineRejected and WellFormedLine |
| Manifest.Parse | tools/convert_image_pair.cpp:95-105 | reference definition of the whole file: one entry per line on success; described by ParseSuccess, ParseFailureSticks and ParseErrorLineIsZero |
| Manifest.ParseManifest | tools/convert_image_pair.cpp:95-105 | the read loop returns exactly `Parse` of the lines: the entries, or the error of the first bad line |
| Manifest.ParseSuccess | tools/convert_image_pair.cpp:96-105 | parsing succeeds iff every line does; then entry i is tokens 0, 1 and the converted token 2 of line i, one entry per line |
| Manifest.ParseFailureSticks | tools/convert_image_pair.cpp:98-103 | a failure in the first k lines is the failure of the whole file |
| Manifest.ParseErrorLineIsZero | tools/convert_image_pair.cpp:95-101 | a malformed-line error always reports line 0 |
| Manifest.LineShape | tools/convert_image_pair.cpp:97-98 | a NUL-free line yields three tokens iff it holds exactly two spaces |
| Manifest.EmptyLineRejected | tools/convert_image_pair.cpp:97-103 | an empty line is rejected as malformed |
| Manifest.WellFormedLine | tools/convert_image_pair.cpp:97-104 | `a b t` with space-free fields parses to `(a, b, label(t))`, or to the conversion error for `t` |
| Manifest.Shuffle | tools/convert_image_pair.cpp:106-110 | the shuffle keeps the length and the multiset of entries, whatever the random draws |
| Manifest.Swap | tools/convert_image_pair.cpp:109 | exchanging two positions changes only those two and keeps the multiset |
| Keys.FormatInt | tools/convert_image_pair.cpp:144 | ASSUMED CONTRACT of `format_int`: an all-digit string at least `width` long, the decimal form left-padded with '0'; described by FormatIntValue and FormatIntWidth |
| Keys.Key | tools/convert_image_pair.cpp:174 | reference definition of the key shared by both passes; described by KeyPrefix, KeysUnique and KeysOrdered |
| Keys.FormatIntValue | tools/convert_image_pair.cpp:144 | the padded decimal form is all digits and reads back as the number |
| Keys.FormatIntWidth | tools/convert_image_pair.cpp:144 | below 10^8 the formatted index is exactly 8 characters |
| Keys.KeyPrefix | tools/convert_image_pair.cpp:144 | a key starts with the 8-digit index, then `_`; the index reads back from it |
| Keys.KeysUnique | tools/convert_image_pair.cpp:174 | for every index, equal keys come from equal indices, whatever the file names: the digit block ends at the first `_` |
| Keys.KeysOrdered | tools/convert_image_pair.cpp:144 | below 10^8, the key of an earlier index is lexicographically smaller |
| Keys.DecimalOrder | tools/convert_image_pair.cpp:144 | equal-length digit strings order lexicographically as their values do |
| Storage.Store.Open | tools/convert_image_pair.cpp:126 | a store opened new holds no batches, nothing pending, no transaction |
| Storage.Store.NewTransaction | tools/convert_image_pair.cpp:127 | a new transaction has nothing buffered and commits nothing |
| Storage.Store.Put | tools/convert_image_pair.cpp:149 | a put is buffered in the open transaction and nothing is committed |
| Storage.Store.Commit | tools/convert_image_pair.cpp:152 | commit appends the buffered puts as one batch and ends the transaction |
| Storage.PutCounted | tools/convert_image_pair.cpp:149-155 | put then count: a commit and a new transaction happen exactly when the count reaches a multiple of 1000, keeping full batches committed and the rest pending |
| Storage.FinishBatches | tools/convert_image_pair.cpp:157-161 | the final commit happens iff the count is not a multiple of 1000; afterwards all puts are committed in batches of 1000 |
| Storage.Chunks | tools/convert_image_pair.cpp:151-161 | reference definition of the batches a counted pass commits; described by FlattenChunks, ChunkSizes and LastChunk |
| Storage.FlattenChunks | tools/convert_image_pair.cpp:151-161 | the committed batches, concatenated, are exactly the puts in order |
| Storage.ChunkSizes | tools/convert_image_pair.cpp:151-161 | there are ceil(count/1000) commits, none empty or above 1000 puts, all but the last full |
| Storage.LastChunk | tools/convert_image_pair.cpp:158-159 | the last batch holds the last count mod 1000 puts, or the last 1000 |
| Storage.FullPrefixStep | tools/convert_image_pair.cpp:151 | one more put either stays in the open batch or completes it |
| Writers.LabelRecord | tools/convert_image_pair.cpp:131-145 | reference definition of the label record of entry i: a 1x1x1 datum, float data the label, label field i, param the key |
| Writers.ImageRecord | tools/convert_image_pair.cpp:196-197 | reference definition of the image record of entry i: the decoded image with label field i and param the key; described by DecodedOrigin |
| Writers.ScanImages | tools/convert_image_pair.cpp:172-209 | reference definition of what the image pass puts and whether the size check stops it; described by ScanIsDecoded, UncheckedScan, CheckedScan and SizeCheckVerdict |
| Writers.WriteLabels | tools/convert_image_pair.cpp:124-161 | the label pass counts every entry and commits, in batches of 1000, one record per entry: key, label field = index, param = key, the label as float data |
| Writers.LabelKeysOrdered | tools/convert_image_pair.cpp:144 | with at most 10^8 entries, label keys are put in strictly increasing order |
| Writers.WriteImages | tools/convert_image_pair.cpp:163-214 | a completed image pass commits all records of `ScanImages` in batches of 1000, with a transaction left open iff the count is a multiple of 1000; a size-check abort leaves the full batches committed and the rest uncommitted |
| Writers.ScanIsDecoded | tools/convert_image_pair.cpp:180-201 | the image pass puts exactly the decodable entries before the point where it stops |
| Writers.UncheckedScan | tools/convert_image_pair.cpp:186 | without the size check the pass never aborts and puts every decodable entry |
| Writers.DecodedCount | tools/convert_image_pair.cpp:181-185 | each skipped pair costs one record: records = entries - decode failures |
| Writers.DecodedOrigin | tools/convert_image_pair.cpp:196-201 | each image record carries its entry's index, key and decoded image, in increasing index order |
| Writers.CheckedScan | tools/convert_image_pair.cpp:190-193 | once the size is fixed, the pass completes iff every later decodable image has that size, and otherwise aborts at the first that does not |
| Writers.FirstImageFixesSize | tools/convert_image_pair.cpp:187-189 | the first decodable image is put unchecked and fixes the size to channels x height x width |
| Writers.NothingDecodable | tools/convert_image_pair.cpp:181-185 | with nothing decodable the checked pass puts nothing and completes |
| Writers.SizeCheckVerdict | tools/convert_image_pair.cpp:186-195 | the checked pass aborts iff some decodable image after the first has a data size other than the first one's channels x height x width |
| Writers.ImageKeysAreLabelKeys | tools/convert_image_pair.cpp:174 | every image record's key and index are those of a label record |
| Writers.ScanSkip | tools/convert_image_pair.cpp:181-185 | a pair that does not decode is skipped without a put |
| Writers.ScanAbort | tools/convert_image_pair.cpp:190-193 | a size mismatch ends the pass with the records written so far |
| Writers.ScanPut | tools/convert_image_pair.cpp:186-201 | any other decoded pair is put next, after fixing the size if it is the first |
| Writers.ScanDone | tools/convert_image_pair.cpp:172 | after the last entry nothing remains to put |
| Convert.ConvertImagePairs | tools/convert_image_pair.cpp:90-214 | a parse error opens no store; otherwise the entries are a permutation of the parsed ones and both stores hold exactly the batches of the two passes |

## Left out

- Image decoding (`ReadImagesToDatum`, caffe/util/io.hpp) is not part of this model. It is a parameter `Decoder` giving `None` or the image's channels, height, width, encoding flag and bytes. The resize target and colour mode it receives are folded into it. The `encoded` flag (line 87) and `encode_type` (line 88, copied into `enc` at line 178 and never used) are not passed to the decoder; they reach only the log message at lines 113-114, so they have no counterpart here.
- Backend failures are not modelled: `Store.Open` and `Store.Commit` always succeed. `Open(path, db::NEW)` on a path that already exists (lines 126 and 165), which is fatal, and a commit that fails are out.
- Protobuf serialisation of `Datum` is not modelled: a record holds the `Datum` fields as a value.
- The LMDB/LevelDB engines (caffe/util/db.hpp) are not part of this model. A store is its committed batches plus its pending puts.
- `std::stod` and the `(float)` narrowing of the label are floating point. The label type is a parameter `L`, and the conversion a parameter `string -> Option<L>` whose `None` models the exception `stod` throws.
- Manifest.Shuffle: the randomness of caffe/util/rng.hpp is a parameter `draw`. Only the permutation property is stated, not the distribution.
- Keys.FormatInt: `format_int` (caffe/util/format.hpp) is not part of this model. Its behaviour is an assumed contract: decimal digits, left-padded with '0' to the width.
- The `int` counters `count`, `line_id` and `data_size` are unbounded here. Overflow past 2^31 - 1 entries, or of channels x height x width, is not modelled.
- Writers.WriteImages: the reused `datum_images` object is modelled as a fresh record per image, with empty float data, since io.hpp is not part of this model. A `CHECK_EQ` failure, which kills the process, is the `Aborted` outcome; the open transaction is never committed.
- Reading the list file with `std::getline` is not modelled: the file is given as its sequence of lines. Also out: gflags/glog setup, logging and console output, the `USE_OPENCV` switch, and the argument handling, including the `argc < 3` test at line 80 followed by the use of `argv[3]` at line 126.
