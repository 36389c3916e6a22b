/**
 * Answering a query: the stored records are filtered by up to five
 * predicates (prefix, suffix and substring on the lower-cased form, exact
 * length, and a regular-expression search on the original form), and a page
 * of the matching originals is returned, `offset` matches in, after at most
 * `limit` of them have been collected.
 */
module QueryEngine {
  import opened Wrappers
  import opened PyText
  import opened Words

  /** The filter arguments of `search`; `None` means the argument was not given. */
  datatype Query = Query(
    startswith: Option<string>,
    endswith: Option<string>,
    contains: Option<string>,
    lenEq: Option<int>,
    regex: Option<string>)

  /** The filter after the generator's set-up: needles lower-cased, the pattern compiled. */
  datatype Prepared = Prepared(
    sw: Option<string>,
    ew: Option<string>,
    ct: Option<string>,
    lenEq: Option<int>,
    rx: Option<string>)

  /** `re.compile` rejected the pattern. */
  datatype SearchError = InvalidPattern(pattern: string)

  /** Python truthiness of a `str | None`: given, and not the empty string. */
  predicate Given(o: Option<string>) {
    o.Some? && o.value != ""
  }

  /** `s.lower() if s else None` */
  function Lowered(host: Host, o: Option<string>): Option<string> {
    if Given(o) then Some(host.lower(o.value)) else None
  }

  /** The set-up at the top of `_filter_iter`. */
  function Prepare(host: Host, q: Query): Prepared {
    Prepared(
      Lowered(host, q.startswith),
      Lowered(host, q.endswith),
      Lowered(host, q.contains),
      q.lenEq,
      if Given(q.regex) then q.regex else None)
  }

  /** A record survives every `continue` guard of `_filter_iter`. */
  predicate Keep(host: Host, p: Prepared, r: WordRecord) {
    && !(Given(p.sw) && !StartsWith(r.low, p.sw.value))
    && !(Given(p.ew) && !EndsWith(r.low, p.ew.value))
    && !(Given(p.ct) && !Contains(r.low, p.ct.value))
    && !(p.lenEq.Some? && r.length != p.lenEq.value)
    && !(p.rx.Some? && !host.reSearch(p.rx.value, r.orig))
  }

  /** Every value the generator yields, in order. */
  function Filtered(host: Host, p: Prepared, data: seq<WordRecord>): seq<string> {
    if data == [] then []
    else (if Keep(host, p, data[0]) then [data[0].orig] else []) + Filtered(host, p, data[1..])
  }

  /** What the generator yields once resumed at record i: the matches among data[i..], in order. */
  function MatchesFrom(host: Host, p: Prepared, data: seq<WordRecord>, i: nat): seq<string>
    requires i <= |data|
    decreases |data| - i
  {
    if i == |data| then []
    else (if Keep(host, p, data[i]) then [data[i].orig] else []) + MatchesFrom(host, p, data, i + 1)
  }

  /** The originals of the records, in order. */
  function Origs(data: seq<WordRecord>): seq<string> {
    if data == [] then [] else [data[0].orig] + Origs(data[1..])
  }

  /** a can be obtained from b by deleting elements. */
  predicate SubsequenceOf<T(==)>(a: seq<T>, b: seq<T>)
    decreases |b|
  {
    a == [] || (b != [] && ((a[0] == b[0] && SubsequenceOf(a[1..], b[1..])) || SubsequenceOf(a, b[1..])))
  }

  /**
   * The page `search` returns from the match sequence m. A negative offset
   * skips nothing. Because a match is appended before the length is
   * compared with `limit`, at least one match is taken whenever one remains.
   */
  function Page(m: seq<string>, limit: int, offset: int): seq<string> {
    var o := if offset < 0 then 0 else offset;
    var n := if limit < 1 then 1 else limit;
    if o >= |m| then [] else m[o .. if o + n <= |m| then o + n else |m|]
  }

  /** What `search` returns, or the error it raises, for the stored records `data`. */
  function SearchResult(host: Host, q: Query, data: seq<WordRecord>, limit: int, offset: int)
    : Result<seq<string>, SearchError>
  {
    if Given(q.regex) && !host.reCompiles(q.regex.value) then Err(InvalidPattern(q.regex.value))
    else Ok(Page(Filtered(host, Prepare(host, q), data), limit, offset))
  }

  // ---------------------------------------------------------------------------
  // The filter

  /**
   * A record is kept exactly when every argument that was given holds of it:
   * the lower-cased needles against the lower-cased word, the length, and the
   * pattern against the original word. Absent or empty arguments impose
   * nothing; a length of 0 is a real constraint.
   */
  lemma KeepMeans(host: Host, q: Query, r: WordRecord)
    ensures Keep(host, Prepare(host, q), r) <==>
      && (Given(q.startswith) ==> StartsWith(r.low, host.lower(q.startswith.value)))
      && (Given(q.endswith) ==> EndsWith(r.low, host.lower(q.endswith.value)))
      && (Given(q.contains) ==> Contains(r.low, host.lower(q.contains.value)))
      && (q.lenEq.Some? ==> r.length == q.lenEq.value)
      && (Given(q.regex) ==> host.reSearch(q.regex.value, r.orig))
  {
    EmptyNeedle(r.low);
  }

  /** Filtering distributes over concatenation of the store. */
  lemma {:induction false} FilteredAppend(host: Host, p: Prepared, a: seq<WordRecord>, b: seq<WordRecord>)
    ensures Filtered(host, p, a + b) == Filtered(host, p, a) + Filtered(host, p, b)
  {
    if a == [] {
      assert a + b == b;
    } else {
      assert (a + b)[1..] == a[1..] + b;
      FilteredAppend(host, p, a[1..], b);
    }
  }

  /** A word is yielded exactly when some record with that original passes the filter. */
  lemma {:induction false} FilteredMembership(host: Host, p: Prepared, data: seq<WordRecord>, w: string)
    ensures w in Filtered(host, p, data) <==>
      exists k :: 0 <= k < |data| && Keep(host, p, data[k]) && data[k].orig == w
  {
    if data != [] {
      FilteredMembership(host, p, data[1..], w);
      if w in Filtered(host, p, data[1..]) {
        var k :| 0 <= k < |data[1..]| && Keep(host, p, data[1..][k]) && data[1..][k].orig == w;
        assert data[k + 1] == data[1..][k];
      }
      if exists k :: 0 <= k < |data| && Keep(host, p, data[k]) && data[k].orig == w {
        var k :| 0 <= k < |data| && Keep(host, p, data[k]) && data[k].orig == w;
        if k > 0 {
          assert data[1..][k - 1] == data[k];
        }
      }
    }
  }

  /** The generator yields a subsequence of the store's originals, in store order. */
  lemma {:induction false} FilteredSubsequence(host: Host, p: Prepared, data: seq<WordRecord>)
    ensures SubsequenceOf(Filtered(host, p, data), Origs(data))
  {
    if data != [] {
      FilteredSubsequence(host, p, data[1..]);
      var rest := Filtered(host, p, data[1..]);
      assert Origs(data)[0] == data[0].orig && Origs(data)[1..] == Origs(data[1..]);
      if Keep(host, p, data[0]) {
        assert Filtered(host, p, data) == [data[0].orig] + rest;
        assert Filtered(host, p, data)[1..] == rest;
      } else {
        assert Filtered(host, p, data) == rest;
      }
    }
  }

  /**
   * Needles that differ only in letter case give the same answer: two queries
   * whose needles are absent or lower-case to the same strings, with the same
   * length and pattern, return the same result.
   */
  lemma CaseInsensitiveNeedles(host: Host, q1: Query, q2: Query, data: seq<WordRecord>, limit: int, offset: int)
    requires SameFolding(host, q1.startswith, q2.startswith)
    requires SameFolding(host, q1.endswith, q2.endswith)
    requires SameFolding(host, q1.contains, q2.contains)
    requires q1.lenEq == q2.lenEq && q1.regex == q2.regex
    ensures SearchResult(host, q1, data, limit, offset) == SearchResult(host, q2, data, limit, offset)
  {
    assert Prepare(host, q1) == Prepare(host, q2);
  }

  /** Both needles are absent or empty, or both are given and lower-case alike. */
  predicate SameFolding(host: Host, a: Option<string>, b: Option<string>) {
    (!Given(a) && !Given(b)) || (Given(a) && Given(b) && host.lower(a.value) == host.lower(b.value))
  }

  // ---------------------------------------------------------------------------
  // Pagination

  /**
   * For a positive limit the page holds the matches from position
   * max(offset, 0) on, as many as remain but at most `limit`.
   */
  lemma PageIsWindow(m: seq<string>, limit: int, offset: int)
    requires limit >= 1
    ensures var o := if offset < 0 then 0 else offset;
      && |Page(m, limit, offset)| == (if o >= |m| then 0 else if |m| - o < limit then |m| - o else limit)
      && forall k :: 0 <= k < |Page(m, limit, offset)| ==> Page(m, limit, offset)[k] == m[o + k]
  {
  }

  /** An offset at or past the last match gives an empty page, not an error. */
  lemma PageBeyondEnd(m: seq<string>, limit: int, offset: int)
    requires offset >= |m|
    ensures Page(m, limit, offset) == []
  {
  }

  /**
   * A limit of zero or less still returns the first match after the offset,
   * if there is one.
   */
  lemma PageNonPositiveLimit(m: seq<string>, limit: int, offset: int)
    requires limit <= 0
    ensures var o := if offset < 0 then 0 else offset;
      Page(m, limit, offset) == if o < |m| then [m[o]] else []
  {
  }

  /** Consecutive pages concatenate to the page that covers both. */
  lemma PagesCompose(m: seq<string>, l1: int, l2: int)
    requires l1 >= 1 && l2 >= 1
    ensures Page(m, l1, 0) + Page(m, l2, l1) == Page(m, l1 + l2, 0)
  {
    if l1 + l2 <= |m| {
      assert m[0..l1] + m[l1..l1 + l2] == m[0..l1 + l2];
    } else if l1 <= |m| {
      assert m[0..l1] + m[l1..|m|] == m[0..|m|];
    }
  }

  /** Every word of a page is one of the matches. */
  lemma PageWithin(m: seq<string>, limit: int, offset: int, w: string)
    requires w in Page(m, limit, offset)
    ensures w in m
  {
    var o := if offset < 0 then 0 else offset;
    var k :| 0 <= k < |Page(m, limit, offset)| && Page(m, limit, offset)[k] == w;
    assert m[o + k] == w;
  }

  /** Pagination composes at the level of `search`, for positive limits. */
  lemma SearchPagesCompose(host: Host, q: Query, data: seq<WordRecord>, l1: int, l2: int)
    requires l1 >= 1 && l2 >= 1
    ensures SearchResult(host, q, data, l1, 0).Ok? == SearchResult(host, q, data, l2, l1).Ok?
    ensures SearchResult(host, q, data, l1, 0).Ok? == SearchResult(host, q, data, l1 + l2, 0).Ok?
    ensures SearchResult(host, q, data, l1, 0).Ok? ==>
      SearchResult(host, q, data, l1, 0).value + SearchResult(host, q, data, l2, l1).value
      == SearchResult(host, q, data, l1 + l2, 0).value
  {
    PagesCompose(Filtered(host, Prepare(host, q), data), l1, l2);
  }

  /** Every word `search` returns is the original of a stored record that passes all given filters. */
  lemma ResultsMatch(host: Host, q: Query, data: seq<WordRecord>, limit: int, offset: int, w: string)
    requires SearchResult(host, q, data, limit, offset).Ok?
    requires w in SearchResult(host, q, data, limit, offset).value
    ensures exists k :: 0 <= k < |data| && data[k].orig == w && Keep(host, Prepare(host, q), data[k])
  {
    var p := Prepare(host, q);
    PageWithin(Filtered(host, p, data), limit, offset, w);
    FilteredMembership(host, p, data, w);
  }

  /** With a length filter of n over a loaded store, every returned word has exactly n code points. */
  lemma LengthFilterExact(host: Host, lines: seq<string>, q: Query, limit: int, offset: int, n: int)
    requires q.lenEq == Some(n)
    requires SearchResult(host, q, Loaded(host, lines), limit, offset).Ok?
    ensures forall w :: w in SearchResult(host, q, Loaded(host, lines), limit, offset).value ==> |w| == n
  {
    var data := Loaded(host, lines);
    LoadedProvenance(host, lines);
    forall w | w in SearchResult(host, q, data, limit, offset).value
      ensures |w| == n
    {
      ResultsMatch(host, q, data, limit, offset, w);
      var k :| 0 <= k < |data| && data[k].orig == w && Keep(host, Prepare(host, q), data[k]);
      assert WellFormed(host, data[k]);
    }
  }

  // ---------------------------------------------------------------------------
  // The loops

  /**
   * Resuming the generator of `_filter_iter` at record `from`: the records
   * are tested in order and the first that passes every guard is yielded.
   * The result is its index, or |data| once the store is exhausted.
   */
  method NextMatch(host: Host, p: Prepared, data: seq<WordRecord>, from: nat) returns (j: nat)
    requires from <= |data|
    ensures from <= j <= |data|
    ensures forall k :: from <= k < j ==> !Keep(host, p, data[k])
    ensures j < |data| ==> Keep(host, p, data[j])
    ensures MatchesFrom(host, p, data, from) ==
      if j < |data| then [data[j].orig] + MatchesFrom(host, p, data, j + 1) else []
  {
    j := from;
    while j < |data|
      invariant from <= j <= |data|
      invariant forall k :: from <= k < j ==> !Keep(host, p, data[k])
      invariant MatchesFrom(host, p, data, from) == MatchesFrom(host, p, data, j)
    {
      var r := data[j];
      if Given(p.sw) && !StartsWith(r.low, p.sw.value) { j := j + 1; continue; }
      if Given(p.ew) && !EndsWith(r.low, p.ew.value) { j := j + 1; continue; }
      if Given(p.ct) && !Contains(r.low, p.ct.value) { j := j + 1; continue; }
      if p.lenEq.Some? && r.length != p.lenEq.value { j := j + 1; continue; }
      if p.rx.Some? && !host.reSearch(p.rx.value, r.orig) { j := j + 1; continue; }
      return;
    }
  }

  /**
   * The loop of `search` over the generator: skip `offset` matches, then
   * collect matches until `limit` of them are held, checking the count only
   * after each append. `pulled` is the number of matches drawn from the
   * generator and `scanned` the record at which it is left suspended: resumed
   * there, it would yield exactly the matches not drawn. Lemma `Scanned`
   * turns this into a statement about the records tested.
   */
  method TakePage(host: Host, p: Prepared, data: seq<WordRecord>, limit: int, offset: int)
    returns (out: seq<string>, ghost pulled: nat, ghost scanned: nat)
    ensures out == Page(MatchesFrom(host, p, data, 0), limit, offset)
    ensures scanned <= |data| && pulled + |MatchesFrom(host, p, data, scanned)| == |MatchesFrom(host, p, data, 0)|
    ensures pulled <= (if offset < 0 then 0 else offset) + (if limit < 1 then 1 else limit)
    ensures scanned < |data| ==> pulled == (if offset < 0 then 0 else offset) + (if limit < 1 then 1 else limit)
    ensures scanned < |data| ==> 0 < scanned && Keep(host, p, data[scanned - 1])
  {
    ghost var m := MatchesFrom(host, p, data, 0);
    ghost var o: nat := if offset < 0 then 0 else offset;
    ghost var n: nat := if limit < 1 then 1 else limit;
    out := [];
    var skipped := 0;
    var i := 0;
    pulled := 0;
    while true
      invariant 0 <= i <= |data|
      invariant Collecting(m, o, n, pulled, skipped, out)
      invariant pulled + |MatchesFrom(host, p, data, i)| == |m|
      decreases |data| - i
    {
      var j := NextMatch(host, p, data, i);
      if j == |data| {
        i := j;  // the generator has tested every record
        break;
      }
      var w := data[j].orig;
      Draw(host, p, data, i, j, pulled);
      i := j + 1;
      if skipped < offset {
        SkipOne(m, o, n, pulled, skipped, out);
        skipped := skipped + 1;
        pulled := pulled + 1;
        continue;
      }
      TakeOne(m, o, n, pulled, skipped, out);
      out := out + [w];
      pulled := pulled + 1;
      if |out| >= limit {
        break;
      }
    }
    scanned := i;
    LoopExit(m, limit, offset, pulled, skipped, out);
  }

  /** The state of the loop of `search`: what it has skipped and collected of the matches m. */
  ghost predicate Collecting(m: seq<string>, o: nat, n: nat, pulled: nat, skipped: nat, out: seq<string>) {
    && pulled == skipped + |out| <= |m|
    && skipped <= o && (|out| > 0 ==> skipped == o)
    && |out| < n
    && forall k :: 0 <= k < |out| ==> out[k] == m[skipped + k]
  }

  /** Drawing the match at record j, resumed at i, takes the next match of the whole store. */
  lemma Draw(host: Host, p: Prepared, data: seq<WordRecord>, i: nat, j: nat, pulled: nat)
    requires i <= j < |data|
    requires pulled + |MatchesFrom(host, p, data, i)| == |MatchesFrom(host, p, data, 0)|
    requires MatchesFrom(host, p, data, i) == [data[j].orig] + MatchesFrom(host, p, data, j + 1)
    ensures pulled < |MatchesFrom(host, p, data, 0)| && MatchesFrom(host, p, data, 0)[pulled] == data[j].orig
    ensures pulled + 1 + |MatchesFrom(host, p, data, j + 1)| == |MatchesFrom(host, p, data, 0)|
  {
    MatchesFromSuffix(host, p, data, 0, i);
  }

  /** Resuming later yields a suffix of what resuming earlier yields. */
  lemma {:induction false} MatchesFromSuffix(host: Host, p: Prepared, data: seq<WordRecord>, a: nat, b: nat)
    requires a <= b <= |data|
    ensures |MatchesFrom(host, p, data, b)| <= |MatchesFrom(host, p, data, a)|
    ensures MatchesFrom(host, p, data, b) ==
      MatchesFrom(host, p, data, a)[|MatchesFrom(host, p, data, a)| - |MatchesFrom(host, p, data, b)|..]
    decreases b - a
  {
    if a < b {
      MatchesFromSuffix(host, p, data, a + 1, b);
      var ma := MatchesFrom(host, p, data, a);
      var m1 := MatchesFrom(host, p, data, a + 1);
      var h := if Keep(host, p, data[a]) then [data[a].orig] else [];
      assert ma == h + m1;
      assert ma[|h|..] == m1;
    }
  }

  /** Skipping a match before the offset is reached keeps the loop state. */
  lemma SkipOne(m: seq<string>, o: nat, n: nat, pulled: nat, skipped: nat, out: seq<string>)
    requires Collecting(m, o, n, pulled, skipped, out) && pulled < |m| && skipped < o
    ensures Collecting(m, o, n, pulled + 1, skipped + 1, out)
  {
  }

  /** Collecting a match once the offset is reached extends the collected run by it. */
  lemma TakeOne(m: seq<string>, o: nat, n: nat, pulled: nat, skipped: nat, out: seq<string>)
    requires Collecting(m, o, n, pulled, skipped, out) && pulled < |m| && skipped == o
    ensures forall k :: 0 <= k < |out| + 1 ==> (out + [m[pulled]])[k] == m[skipped + k]
    ensures |out| + 1 < n ==> Collecting(m, o, n, pulled + 1, skipped, out + [m[pulled]])
  {
  }

  /** Either way the loop of `search` ends, it has collected exactly the page. */
  lemma LoopExit(m: seq<string>, limit: int, offset: int, pulled: nat, skipped: nat, out: seq<string>)
    requires pulled == skipped + |out| <= |m|
    requires skipped <= (if offset < 0 then 0 else offset)
    requires |out| > 0 ==> skipped == (if offset < 0 then 0 else offset)
    requires forall k :: 0 <= k < |out| ==> out[k] == m[skipped + k]
    requires pulled == |m| || (|out| >= limit && |out| >= 1)
    requires |out| <= (if limit < 1 then 1 else limit)
    ensures out == Page(m, limit, offset)
    ensures pulled <= (if offset < 0 then 0 else offset) + (if limit < 1 then 1 else limit)
    ensures |out| >= limit && |out| >= 1 ==>
      pulled == (if offset < 0 then 0 else offset) + (if limit < 1 then 1 else limit)
  {
  }

  /** Resuming at record i yields what filtering the records from i on yields. */
  lemma {:induction false} MatchesFromIsFiltered(host: Host, p: Prepared, data: seq<WordRecord>, i: nat)
    requires i <= |data|
    ensures MatchesFrom(host, p, data, i) == Filtered(host, p, data[i..])
    decreases |data| - i
  {
    if i < |data| {
      MatchesFromIsFiltered(host, p, data, i + 1);
      assert data[i..][0] == data[i] && data[i..][1..] == data[i + 1..];
    }
  }

  /**
   * Once the generator, resumed at i, has `pulled` matches fewer left than
   * the whole store yields, the records before i yield exactly those
   * `pulled` matches.
   */
  lemma Scanned(host: Host, p: Prepared, data: seq<WordRecord>, i: nat, pulled: nat)
    requires i <= |data|
    requires pulled + |MatchesFrom(host, p, data, i)| == |MatchesFrom(host, p, data, 0)|
    ensures MatchesFrom(host, p, data, 0) == Filtered(host, p, data)
    ensures pulled <= |Filtered(host, p, data)|
    ensures Filtered(host, p, data[..i]) == Filtered(host, p, data)[..pulled]
  {
    MatchesFromSuffix(host, p, data, 0, i);
    MatchesFromIsFiltered(host, p, data, 0);
    MatchesFromIsFiltered(host, p, data, i);
    assert data[0..] == data;
    var m := Filtered(host, p, data);
    assert data[..i] + data[i..] == data;
    FilteredAppend(host, p, data[..i], data[i..]);
    assert m == m[..pulled] + m[pulled..];
  }

  /**
   * `search`: load the (cached) store, compile the pattern, then return the
   * requested page of matches. The pattern is compiled after the store is
   * loaded, so an invalid pattern still leaves the store loaded.
   */
  method Search(store: WordStore, q: Query, limit: int, offset: int)
    returns (r: Result<seq<string>, SearchError>)
    requires store.Valid()
    modifies store
    ensures store.Valid() && store.cache == Some(Loaded(store.host, store.file)) && store.fileReads == 1
    ensures r == SearchResult(store.host, q, Loaded(store.host, store.file), limit, offset)
  {
    var data := store.LoadWords();
    if Given(q.regex) && !store.host.reCompiles(q.regex.value) {
      return Err(InvalidPattern(q.regex.value));
    }
    var p := Prepare(store.host, q);
    var out;
    ghost var pulled, scanned;
    out, pulled, scanned := TakePage(store.host, p, data, limit, offset);
    Scanned(store.host, p, data, scanned, pulled);
    return Ok(out);
  }
}
