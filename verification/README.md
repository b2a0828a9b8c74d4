# Bucketeer — a Dafny model

Bucketeer is a MarkLogic aggregate plugin (`BucketeerPlugin.cpp`). It sorts
the values of a lexicon into named buckets and returns a map from each
bucket name to every value filed under it. Two aggregates share one bucket
store:

- `regex` files each string under the first match of a POSIX regular
  expression. The match may be lower-cased. Strings that do not match can
  go to a catch-all bucket, `bucketeer:overflow`.
- `dateTime` files each timestamp under a key built from chosen calendar
  fields, for example `2024-3` for year and month.

The model is split into these modules:

| module | file | what it models |
|---|---|---|
| `StringOrder` | `string_order.dfy` | the order of bucket keys: lexicographic on code points, proved a strict total order |
| `Bucketeer` | `bucketeer.dfy` | the `Bucketeer<T>` store, a `std::multimap<String, T>`, with its life-cycle operations `reduce`, `finish` and `close` |
| `Codec` | `codec.dfy` | `encode` and `decode`, the flattened form in which a store crosses between partitions |
| `Batch` | `batch.dfy` | what both `map` implementations share: each non-null tuple is classified into at most one entry, and the entries are inserted in input order |
| `RegexBucketeer` | `regex_bucketeer.dfy` | `BucketeerRegex::start` and `BucketeerRegex::map` |
| `DateTimeBucketeer` and `KeyText` | `date_time_bucketeer.dfy`, `key_text.dfy` | `BucketeerDateTime::start` and `map`: the tick conversion, and the text of a key with its parser |

**The store.** The multimap is a key-ordered sequence of entries, kept in
iteration order. A C++11 multimap inserts a new entry after every entry
with an equal key. `Insert` therefore places it at the upper bound of its
key. The abstraction used throughout is `Values(s, k)`: the values under
key `k`, in insertion order. Two ordered stores with the same `Values` are
equal (`OrderedStoreDeterminedByValues`), so each merge law is proved key
by key.

**`reduce`.** `reduce` inserts every entry of the other store in its
iteration order. `Reduce` folds `Insert` over a sequence of entries, so the
same function also describes `decode` and `map`. Each `map` is `Reduce`
of the entries `Batch.Gather` collects from a batch with the aggregate's
classifier.

**The codec.** The host's `Encoder`/`Decoder` pair is a stream of tokens
(`IntTok`, `StrTok`, `ValTok`). `Decode` returns `None` when the stream ends
early or holds a token of the wrong kind.

**Foreign code.** `regexec` and `localtime` are foreign code. Each is a
parameter:

- A `Matcher` is any function from the configuration and a string to the
  first match's span, and the span always lies inside the string.
- `localtime` is any function from Unix seconds to a `struct tm` record
  (`Tm`).

## Model

| member | source | states |
|---|---|---|
| `StringOrder.LessTotal` | BucketeerPlugin.cpp:24 | any two distinct keys are ordered one way or the other, so a multimap can order its keys by this relation |
| `StringOrder.LessTransitive` | BucketeerPlugin.cpp:24 | the key order is transitive |
| `Bucketeer.UpperBound` | BucketeerPlugin.cpp:55 | the upper bound of `k` splits an ordered store in two: keys at most `k` before it, keys above `k` from it on |
| `Bucketeer.Insert` | BucketeerPlugin.cpp:81 | inserting keeps the store ordered and adds exactly the one pair; under its key the value goes after all earlier values, and every other key's values are unchanged |
| `Bucketeer.InsertKeepsDuplicates` | BucketeerPlugin.cpp:146 | inserting the same pair twice keeps both copies, one after the other |
| `Bucketeer.OrderedStoreDeterminedByValues` | BucketeerPlugin.cpp:24 | two ordered stores with the same values under every key are the same store |
| `Bucketeer.Values` | BucketeerPlugin.cpp:59 | the values under a key, as `equal_range` visits them, are at most one per entry of the store |
| `Bucketeer.ValuesFromEntries` | BucketeerPlugin.cpp:116-121 | every value found under a key belongs to an entry of the store with exactly that key |
| `Bucketeer.ValuesNonEmptyIffHasKey` | BucketeerPlugin.cpp:59 | a key has values in the store exactly when some entry carries it |
| `Bucketeer.Reduce` | BucketeerPlugin.cpp:72-83 | after merging, each key holds the receiver's old values followed by the other store's values for it; as a multiset the result is the union of the two |
| `Bucketeer.ReduceAssociative` | BucketeerPlugin.cpp:72-83 | merging three partial results gives the same store however the merges are nested |
| `Bucketeer.ReduceCommutesAsMultiset` | BucketeerPlugin.cpp:72-83 | merging in either order gives the same entries and the same multiset under every key; only the order of values under a key differs |
| `Bucketeer.ReduceAppend` | BucketeerPlugin.cpp:79-82 | merging a concatenation is merging its first part, then its second |
| `Bucketeer.ReduceSnoc` | BucketeerPlugin.cpp:79-82 | merging one more entry is inserting it into the merged store |
| `Bucketeer.ReduceIntoEmpty` | BucketeerPlugin.cpp:78-82 | merging an ordered store into an empty one reproduces it exactly |
| `Bucketeer.Finish` | BucketeerPlugin.cpp:47-70 | the emitted map holds each key of the store exactly once, in strictly ascending order; under each key it holds every stored value in insertion order, and no key without values appears |
| `Bucketeer.FlattenFinish` | BucketeerPlugin.cpp:55-68 | reading the emitted buckets in order and pairing each value with its key gives back the whole store, duplicates included |
| `Bucketeer.Close` | BucketeerPlugin.cpp:39-45 | after `close` the store is empty: no key has any value |
| `Codec.Encode` | BucketeerPlugin.cpp:88-123 | the encoding starts with the number of distinct keys; its length is one token, plus two per distinct key, plus one per stored value |
| `Codec.EncodeLayout` | BucketeerPlugin.cpp:92-122 | after the key count and the groups of all smaller keys, each key is followed by the number of values stored under it (never zero) and exactly those values in stored order; the groups of the larger keys come next |
| `Codec.EncodedLength` | BucketeerPlugin.cpp:95-107 | the key count written is the number of distinct keys, and the key groups take two tokens each plus one per value |
| `Codec.EncodeBuckets` | BucketeerPlugin.cpp:108-122 | the key groups take two tokens per bucket (key and count) plus one per value; `DecodeEncodedBuckets` reads them back |
| `Codec.ValueTokens` | BucketeerPlugin.cpp:118-121 | the values of one key are written one token each, in stored order |
| `Codec.DecodeValues` | BucketeerPlugin.cpp:140-147 | decoding the values of one key keeps the store ordered and only appends values under each key |
| `Codec.DecodeBuckets` | BucketeerPlugin.cpp:132-148 | decoding the key groups keeps the store ordered and only appends values under each key |
| `Codec.Decode` | BucketeerPlugin.cpp:125-149 | decoding into a store keeps it ordered and only appends values after those already under each key |
| `Codec.DecodeEncodedBuckets` | BucketeerPlugin.cpp:108-148 | decoding the encoded groups of a bucket list merges their entries, in order, and stops exactly where the groups end |
| `Codec.DecodeEncodeIsReduce` | BucketeerPlugin.cpp:88-149 | decoding an encoded store into a store `t` gives the same result as merging the original into `t` with `reduce` |
| `Codec.RoundTrip` | BucketeerPlugin.cpp:88-149 | decoding an encoding into an empty store rebuilds the store exactly, so it emits the same map |
| `Codec.DecodeCountOnly` | BucketeerPlugin.cpp:129-132 | a stream with only the key count leaves the store unchanged when the count is at most zero; otherwise the stream ends early |
| `RegexBucketeer.ApplyFlags` | BucketeerPlugin.cpp:179-198 | each of `case-insensitive`, `extended` and `capture-overflow` is on exactly when it was already on or appears among the arguments; unknown arguments change nothing |
| `RegexBucketeer.Start` | BucketeerPlugin.cpp:168-201 | the first argument is the pattern; each flag is on exactly when a later argument names it, and off otherwise |
| `RegexBucketeer.Lowercase` | BucketeerPlugin.cpp:235-240 | lower-casing keeps the length and maps each character through C-locale `tolower` |
| `RegexBucketeer.LowercaseIdempotent` | BucketeerPlugin.cpp:238 | a lower-cased key has no upper-case letter left, and lower-casing it again changes nothing |
| `RegexBucketeer.MatchKey` | BucketeerPlugin.cpp:219-244 | the key of a match is as long as the span, and each of its characters is the input's character at that place in the span, lower-cased exactly when `case-insensitive` is on |
| `RegexBucketeer.Classify` | BucketeerPlugin.cpp:209-254 | on a match, the entry's key is the matched substring, lower-cased exactly when `case-insensitive` is on; without a match, the entry goes under `bucketeer:overflow` if `capture-overflow` is on, and there is none otherwise; the value is always the input string |
| `RegexBucketeer.ClassifiedValues` | BucketeerPlugin.cpp:207-256 | a batch yields at most one entry per non-null string and none for a null; with `capture-overflow` on, exactly one per string, in input order, each holding its string |
| `RegexBucketeer.MapTuple` | BucketeerPlugin.cpp:209-255 | a null tuple leaves the store unchanged; a string adds itself, at the end, under its entry's key and nowhere else, or adds nothing when it has no entry; the result is the store merged with the tuple's entries |
| `RegexBucketeer.Map` | BucketeerPlugin.cpp:203-257 | processing a batch gives the store merged with the entries `Batch.Gather` collects from it with `Classify`, in input order; splitting a stream into batches does not change the result by `Batch.GatherBatches` |
| `Batch.GatherAppend` | BucketeerPlugin.cpp:207-256 | the entries of two batches in a row are the first batch's entries followed by the second's |
| `Batch.GatherBatches` | BucketeerPlugin.cpp:203-257 | processing a stream as two batches, one `map` after the other, leaves the same store as processing it as one batch |
| `Batch.ReduceEntryOf` | BucketeerPlugin.cpp:209-254 | merging one tuple's entries inserts its entry when it is not null and is filed, and leaves the store unchanged otherwise |
| `Batch.GatherOnePerValue` | BucketeerPlugin.cpp:207-209 | a batch gives at most one entry per non-null value and none for a null; when every value is filed, exactly one per value, in input order, the one the classifier gives |
| `DateTimeBucketeer.FieldNamed` | BucketeerPlugin.cpp:304-335 | an argument selects a field exactly when it is that field's name |
| `DateTimeBucketeer.EnableNamed` | BucketeerPlugin.cpp:299-337 | after the argument loop, a field is on exactly when it was on before or some argument names it |
| `DateTimeBucketeer.Start` | BucketeerPlugin.cpp:280-339 | with no arguments exactly year and month are on; otherwise exactly the fields some argument names |
| `DateTimeBucketeer.UnknownArgumentsGiveEmptyKey` | BucketeerPlugin.cpp:297-337 | when every argument is unknown, no field is on and every key is the empty string |
| `DateTimeBucketeer.FieldValue` | BucketeerPlugin.cpp:358-369 | the year written is the calendar year (`tm_year + 1900`), non-negative exactly from year 0 on; the month is counted from 1, in 1..12 exactly when `tm_mon` is in 0..11 |
| `DateTimeBucketeer.ComposeKey` | BucketeerPlugin.cpp:358-404 | the joiner loop writes the enabled fields in the fixed order, in decimal, with a single `-` between neighbours and none at either end |
| `DateTimeBucketeer.KeyFieldsRoundTrip` | BucketeerPlugin.cpp:358-404 | splitting a key at its dashes and reading the pieces as numbers gives back the enabled fields' values in the fixed order, when at least one field is on and none is negative |
| `DateTimeBucketeer.DefaultKey` | BucketeerPlugin.cpp:358-369 | with the default configuration a key is the calendar year, a dash, and the month counted from 1 |
| `DateTimeBucketeer.DefaultKeyExample` | BucketeerPlugin.cpp:361-367 | every time in March 2024 (`tm_year` 124, `tm_mon` 2) gets the key `2024-3` under the default configuration, whatever its other fields |
| `DateTimeBucketeer.WeekdayHourKey` | BucketeerPlugin.cpp:382-393 | with `day-of-week` and `hour` on, a key is the weekday counted from Sunday as 0, a dash, and the hour |
| `DateTimeBucketeer.WeekdayHourKeyExample` | BucketeerPlugin.cpp:385-391 | every Wednesday at 14h gets the key `3-14` with `day-of-week` and `hour` on, whatever its other fields |
| `DateTimeBucketeer.TruncDiv` | BucketeerPlugin.cpp:355 | C++ integer division rounds the quotient toward zero |
| `DateTimeBucketeer.UnixSecondsAsWritten` | BucketeerPlugin.cpp:355 | the conversion as written gives the whole second at or before the time after the epoch, and at or after it before the epoch |
| `DateTimeBucketeer.UnixSeconds` | BucketeerPlugin.cpp:355 | the corrected conversion always gives the whole Unix second the time falls in |
| `DateTimeBucketeer.TruncationMovesPreEpochTimesLate` | BucketeerPlugin.cpp:355 | half a second before the epoch, the conversion as written gives second 0 while the time lies in second -1 |
| `DateTimeBucketeer.ConversionsAgreeExceptBeforeEpoch` | BucketeerPlugin.cpp:355 | the two conversions differ exactly for times before the epoch that are not whole seconds |
| `DateTimeBucketeer.Classify` | BucketeerPlugin.cpp:353-405 | a timestamp is filed as itself, under the key of the calendar fields of the second the conversion as written gives: the second it falls in when it is at or after the epoch or a whole second, and the next second otherwise |
| `DateTimeBucketeer.ClassifyHalfSecondBeforeEpoch` | BucketeerPlugin.cpp:353-357 | half a second before the epoch, `map` files the timestamp under the fields of second 0, while it lies in second -1 |
| `DateTimeBucketeer.OneEntryPerTimestamp` | BucketeerPlugin.cpp:345-407 | each non-null timestamp gives exactly one entry, in input order; its value is the unmodified timestamp and its key is built from the calendar fields of the second that line 355 computes, with truncating division |
| `DateTimeBucketeer.Map` | BucketeerPlugin.cpp:341-408 | processing a batch gives the store merged with the entries `Batch.Gather` collects from it with `Classify`, in input order, with truncating conversion as written; nulls change nothing; splitting a stream into batches does not change the result by `Batch.GatherBatches` |
| `KeyText.Digits` | BucketeerPlugin.cpp:361 | a number written in decimal is a non-empty string of digits |
| `KeyText.ParseDigits` | BucketeerPlugin.cpp:361 | a number written in decimal reads back as that number and has no leading zero |
| `KeyText.JoinSnoc` | BucketeerPlugin.cpp:360-362 | writing one more piece adds a `-` before it exactly when something precedes it |
| `KeyText.SplitJoin` | BucketeerPlugin.cpp:351-403 | pieces without dashes, joined by `-`, split back into the same pieces |

## Left out

- `regcomp` and `regexec` (lines 200 and 215) are the C library's POSIX
  matcher. They are a parameter: any function that returns a span inside the
  string. As a result:
  - the `extended` flag only reaches that parameter;
  - a pattern that fails to compile is not reported, and neither does the
    source report it.
- `std::chrono` and `localtime` (lines 352-357) depend on the host's clock
  range and time zone. Calendar fields come from a `localtime` parameter. The
  range of `system_clock` is not modelled.
- Host interfaces are foreign I/O and are left out:
  - `Sequence`, `TupleIterator` and `OutputSequence`;
  - the byte layout of `Encoder` and `Decoder`;
  - `Reporter` and the collation strings;
  - registration in `marklogicPlugin` (lines 412-418).

  Argument lists, tuple batches and token streams are sequences. A null
  tuple is `None`.
- Memory and lifetime details are left out:
  - `delete this` in `close`;
  - the leaked `new String` copies;
  - the unterminated copy buffer `cp_str`;
  - the unused member `key_count`.

  The stored value is the input string itself.
- Collation-aware comparison of keys is not modelled. Keys are ordered by
  plain lexicographic order on code points.
- Codec.Decode: returns `None` on a stream that ends early or holds a token
  of the wrong kind. This is a choice made for the model. The source does no
  such checks and reads whatever the decoder yields.
- Codec.Encode: does not model overflow of the 32-bit `int` counts in
  `encode` and `decode`. Counts are unbounded integers.
- DateTimeBucketeer.UnixSeconds: does not model overflow of the 64-bit
  subtraction `v - 11644473600000 * 10000`. Ticks are unbounded integers.
- RegexBucketeer.Start: requires at least one argument. The source reads the
  pattern without checking, and what the host returns for an empty argument
  sequence is not part of this model.
- DateTimeBucketeer.KeyFieldsRoundTrip: covers only non-negative field
  values. A negative value is written with a leading `-`, so its key does not
  split back into its fields. The `struct tm` fields a key writes are
  non-negative for every date from year 0 on; only years before year 0 give
  a negative year (`tm_year + 1900 < 0`).
- RegexBucketeer.Classify and RegexBucketeer.Lowercase: strings are
  sequences of characters, not of bytes. The source's `regexec` offsets
  (`rm_so`, `rm_eo`), `strlen` and `::tolower` work byte by byte in the
  process's current locale. In the model a span counts characters, so a
  byte span that splits a multi-byte character (`^.` on `é` in the C locale)
  has no counterpart. `tolower` is taken in the C locale: only `A`-`Z` change.
- A regex match whose text is `bucketeer:overflow` lands in the same bucket
  as the unmatched strings, as it does in the source. Nothing separates the
  two.

## Findings

| source | as written | input that shows it | evidently intended | confidence | as-written member | corrected member |
|---|---|---|---|---|---|---|
| BucketeerPlugin.cpp:355 | `(v - 11644473600000 * 10000) / 10000000` divides with C++ integer division, which rounds toward zero; every time before 1970-01-01 that is not a whole second is moved to the next second | ticks = `116444736000000000 - 5000000` (1969-12-31T23:59:59.5Z) converts to second 0, which is 1970-01-01T00:00:00Z, so in a UTC time zone with the default fields it is filed under `1970-1` instead of `1969-12` | the Unix second the time falls in, rounding down (floor division) | medium, not executed | `DateTimeBucketeer.UnixSecondsAsWritten`, used by `DateTimeBucketeer.Classify` and so by `DateTimeBucketeer.Map` (shown by `DateTimeBucketeer.TruncationMovesPreEpochTimesLate` and `DateTimeBucketeer.ClassifyHalfSecondBeforeEpoch`) | `DateTimeBucketeer.UnixSeconds`, whose floor property is proved; `DateTimeBucketeer.Classify`'s contract states the key in its terms |
