/**
  The `regex` aggregate (`BucketeerRegex`): every string goes into the
  bucket named by the first match of a pattern in it. The POSIX matcher
  (`regcomp`/`regexec`) is foreign code and is a parameter of the model: a
  function from the configuration and a string to the span of the first
  match, if there is one.
 */
module RegexBucketeer {
  import opened Optional
  import opened Bucketeer
  import opened Batch

  /** The bucket for strings the pattern does not match, when `capture-overflow` is given. */
  const OverflowBucket: string := "bucketeer:overflow"

  /** The state `start` leaves behind: the pattern and the three flags. */
  datatype RegexConfig = RegexConfig(pattern: string, caseInsensitive: bool, extended: bool, captureOverflow: bool)

  /** The flag loop of `start`: each known flag switches its option on; anything else is ignored. */
  function ApplyFlags(c: RegexConfig, flags: seq<string>): (r: RegexConfig)
    ensures r.pattern == c.pattern
    ensures r.caseInsensitive <==> c.caseInsensitive || "case-insensitive" in flags
    ensures r.extended <==> c.extended || "extended" in flags
    ensures r.captureOverflow <==> c.captureOverflow || "capture-overflow" in flags
    decreases |flags|
  {
    if |flags| == 0 then c
    else
      var flag := flags[0];
      var c' :=
        if flag == "case-insensitive" then c.(caseInsensitive := true)
        else if flag == "extended" then c.(extended := true)
        else if flag == "capture-overflow" then c.(captureOverflow := true)
        else c;
      assert forall x :: x in flags <==> x == flag || x in flags[1..];
      ApplyFlags(c', flags[1..])
  }

  /**
    `start`: the first argument is the pattern; each later argument that
    names a flag turns it on, every flag is off otherwise, and unknown
    arguments are ignored. A pattern that does not compile is not reported.
   */
  function Start(args: seq<string>): (c: RegexConfig)
    requires |args| > 0
    ensures c.pattern == args[0]
    ensures c.caseInsensitive <==> "case-insensitive" in args[1..]
    ensures c.extended <==> "extended" in args[1..]
    ensures c.captureOverflow <==> "capture-overflow" in args[1..]
  {
    ApplyFlags(RegexConfig(args[0], false, false, false), args[1..])
  }

  /** The first match's start and end offsets (`rm_so`, `rm_eo`). */
  datatype Span = Span(so: nat, eo: nat)

  predicate Within(m: Option<Span>, s: string)
  {
    m.Some? ==> m.value.so <= m.value.eo <= |s|
  }

  function NeverMatches(c: RegexConfig, s: string): Option<Span>
  {
    None
  }

  /**
    `regexec` on the pattern compiled from a configuration (its pattern,
    case-insensitivity and extended dialect): the first match, which always
    lies inside the string.
   */
  type Matcher = f: (RegexConfig, string) -> Option<Span> | forall c, s :: Within(f(c, s), s)
    witness NeverMatches

  /** `tolower` in the C locale: only `A`-`Z` change. */
  function ToLower(ch: char): char
  {
    if 'A' <= ch <= 'Z' then (ch as int - 'A' as int + 'a' as int) as char else ch
  }

  function Lowercase(s: string): (r: string)
    ensures |r| == |s|
    ensures forall i | 0 <= i < |s| :: r[i] == ToLower(s[i])
  {
    if |s| == 0 then [] else [ToLower(s[0])] + Lowercase(s[1..])
  }

  /** Lowercasing leaves no upper-case letter behind, so doing it twice changes nothing more. */
  lemma LowercaseIdempotent(s: string)
    ensures forall i | 0 <= i < |Lowercase(s)| :: !('A' <= Lowercase(s)[i] <= 'Z')
    ensures Lowercase(Lowercase(s)) == Lowercase(s)
  {
  }

  /** The matched text, lower-cased when the configuration says so. */
  function MatchKey(c: RegexConfig, s: string, m: Span): (key: string)
    requires Within(Some(m), s)
    ensures |key| == m.eo - m.so
    ensures forall i | 0 <= i < m.eo - m.so :: key[i] == if c.caseInsensitive then ToLower(s[m.so + i]) else s[m.so + i]
  {
    var matched := s[m.so..m.eo];
    if c.caseInsensitive then Lowercase(matched) else matched
  }

  /**
    The entry `map` makes of one string: on a match, the matched text
    (lower-cased iff `case-insensitive`) as key; otherwise the overflow
    bucket if `capture-overflow` is on, and nothing if not. The stored value
    is always the string itself.
   */
  function Classify(c: RegexConfig, regexec: Matcher, s: string): (e: Option<Entry<string>>)
    ensures e.Some? ==> e.value.value == s
    ensures e.None? <==> regexec(c, s).None? && !c.captureOverflow
    ensures regexec(c, s).None? && e.Some? ==> e.value.key == OverflowBucket
    ensures regexec(c, s).Some? ==>
              var m := regexec(c, s).value;
              && e.Some?
              && |e.value.key| == m.eo - m.so
              && forall i | 0 <= i < m.eo - m.so ::
                   e.value.key[i] == if c.caseInsensitive then ToLower(s[m.so + i]) else s[m.so + i]
  {
    match regexec(c, s)
    case Some(m) => Some(Entry(MatchKey(c, s, m), s))
    case None => if c.captureOverflow then Some(Entry(OverflowBucket, s)) else None
  }

  /** `Classify` as a classifier of batch values. */
  function Classifier(c: RegexConfig, regexec: Matcher): string -> Option<Entry<string>>
  {
    s => Classify(c, regexec, s)
  }

  /**
    At most one entry per string present, never one for a null. With
    `capture-overflow` on, every string present gives exactly one entry,
    in input order, holding that string as its value.
   */
  lemma ClassifiedValues(c: RegexConfig, regexec: Matcher, inputs: seq<Option<string>>)
    ensures |Gather(Classifier(c, regexec), inputs)| <= |Present(inputs)|
    ensures c.captureOverflow ==>
              && |Gather(Classifier(c, regexec), inputs)| == |Present(inputs)|
              && forall i | 0 <= i < |Present(inputs)| :: Gather(Classifier(c, regexec), inputs)[i].value == Present(inputs)[i]
  {
    var f := Classifier(c, regexec);
    GatherOnePerValue(f, inputs);
    if c.captureOverflow {
      assert forall x :: f(x).Some? && f(x).value.value == x;
    }
  }

  /**
    One tuple of `map`: a null is skipped, a match or a captured miss is
    inserted under its key, and nothing else changes.
   */
  method MapTuple(c: RegexConfig, regexec: Matcher, r: Store<string>, x: Option<string>) returns (r': Store<string>)
    requires Ordered(r)
    ensures Ordered(r')
    ensures x.None? ==> r' == r
    ensures var e := if x.Some? then Classify(c, regexec, x.value) else None;
            forall k :: Values(r', k) == Values(r, k) + if e.Some? && e.value.key == k then [e.value.value] else []
    ensures r' == Reduce(r, EntryOf(Classifier(c, regexec), x))
  {
    ReduceEntryOf(Classifier(c, regexec), r, x);
    r' := r;
    if x.Some? {
      var cur := x.value;
      match regexec(c, cur)
      case Some(m) =>
        r' := Insert(r, MatchKey(c, cur, m), cur);
      case None =>
        if c.captureOverflow {
          r' := Insert(r, OverflowBucket, cur);
        }
    }
  }

  /**
    `map` over one batch of tuples: each string is classified and its entry,
    if any, inserted, in input order; null tuples change nothing. The
    result is the store merged with the batch's entries, so by
    `GatherBatches` a stream processed in several batches ends the same as
    in one.
   */
  method Map(c: RegexConfig, regexec: Matcher, s: Store<string>, inputs: seq<Option<string>>) returns (r: Store<string>)
    requires Ordered(s)
    ensures Ordered(r)
    ensures r == Reduce(s, Gather(Classifier(c, regexec), inputs))
  {
    r := s;
    var i := 0;
    while i < |inputs|
      invariant 0 <= i <= |inputs|
      invariant Ordered(r)
      invariant r == Reduce(s, Gather(Classifier(c, regexec), inputs[..i]))
    {
      GatherStep(Classifier(c, regexec), s, inputs, i);
      r := MapTuple(c, regexec, r, inputs[i]);
      i := i + 1;
    }
    assert inputs[..i] == inputs;
  }
}
