/**
 * Loading the word list: every line of the file is stripped and put in NFC
 * form; each non-empty result becomes a record (original, lower-cased,
 * length). Line order and duplicates are kept. The list is built once and
 * cached for every later call.
 */
module Words {
  import opened Wrappers
  import opened PyText

  /** The tuple (orig, lower, length) stored for one word. */
  datatype WordRecord = WordRecord(orig: string, low: string, length: nat)

  /** `_norm`: Unicode canonical composition. */
  function Norm(host: Host, s: string): string {
    host.nfc(s)
  }

  /** The word a raw line of the file stands for. */
  function LineWord(host: Host, line: string): string {
    Norm(host, Strip(line))
  }

  /** The record built for a (non-empty) word. */
  function MakeRecord(host: Host, w: string): WordRecord {
    WordRecord(w, host.lower(w), |w|)
  }

  /** The records that the given lines produce, in line order. */
  function Loaded(host: Host, lines: seq<string>): seq<WordRecord> {
    if lines == [] then []
    else
      var w := LineWord(host, lines[0]);
      (if w != "" then [MakeRecord(host, w)] else []) + Loaded(host, lines[1..])
  }

  /** A record whose fields agree with each other and with some word. */
  ghost predicate WellFormed(host: Host, r: WordRecord) {
    r.orig != "" && r.low == host.lower(r.orig) && r.length == |r.orig|
  }

  /** Loading distributes over concatenation of the file's lines. */
  lemma {:induction false} LoadedAppend(host: Host, a: seq<string>, b: seq<string>)
    ensures Loaded(host, a + b) == Loaded(host, a) + Loaded(host, b)
  {
    if a == [] {
      assert a + b == b;
    } else {
      assert (a + b)[1..] == a[1..] + b;
      LoadedAppend(host, a[1..], b);
    }
  }

  /** What a single line contributes: one record, or nothing when it is blank. */
  lemma LoadedSingle(host: Host, line: string)
    ensures Loaded(host, [line]) ==
      if LineWord(host, line) != "" then [MakeRecord(host, LineWord(host, line))] else []
  {
    assert [line][1..] == [];
  }

  /** A line that is empty once stripped and normalised produces no record. */
  lemma BlankLineIgnored(host: Host, a: seq<string>, line: string, b: seq<string>)
    requires LineWord(host, line) == ""
    ensures Loaded(host, a + [line] + b) == Loaded(host, a + b)
  {
    LoadedAppend(host, a + [line], b);
    LoadedAppend(host, a, [line]);
    LoadedAppend(host, a, b);
    LoadedSingle(host, line);
  }

  /** A repeated word is stored once per occurrence, at its place in the file. */
  lemma DuplicatesKept(host: Host, a: seq<string>, line: string, b: seq<string>)
    requires LineWord(host, line) != ""
    ensures Loaded(host, a + [line, line] + b) ==
      Loaded(host, a) + [MakeRecord(host, LineWord(host, line)), MakeRecord(host, LineWord(host, line))] + Loaded(host, b)
  {
    assert [line, line] == [line] + [line];
    LoadedAppend(host, a + [line, line], b);
    LoadedAppend(host, a, [line, line]);
    LoadedAppend(host, [line], [line]);
    LoadedSingle(host, line);
  }

  /** There are no more records than lines. */
  lemma {:induction false} LoadedBound(host: Host, lines: seq<string>)
    ensures |Loaded(host, lines)| <= |lines|
  {
    if lines != [] {
      LoadedBound(host, lines[1..]);
    }
  }

  /** Every record is well formed and is the record of the word of some line. */
  lemma {:induction false} LoadedProvenance(host: Host, lines: seq<string>)
    ensures forall k :: 0 <= k < |Loaded(host, lines)| ==>
      WellFormed(host, Loaded(host, lines)[k]) &&
      exists i :: 0 <= i < |lines| && Loaded(host, lines)[k] == MakeRecord(host, LineWord(host, lines[i]))
  {
    if lines != [] {
      var rest := lines[1..];
      LoadedProvenance(host, rest);
      var w := LineWord(host, lines[0]);
      var head := if w != "" then [MakeRecord(host, w)] else [];
      var all := Loaded(host, lines);
      assert all == head + Loaded(host, rest);
      forall k | 0 <= k < |all|
        ensures WellFormed(host, all[k]) &&
          exists i :: 0 <= i < |lines| && all[k] == MakeRecord(host, LineWord(host, lines[i]))
      {
        if k < |head| {
          assert all[k] == MakeRecord(host, LineWord(host, lines[0]));
        } else {
          var k' := k - |head|;
          assert all[k] == Loaded(host, rest)[k'];
          var i' :| 0 <= i' < |rest| && Loaded(host, rest)[k'] == MakeRecord(host, LineWord(host, rest[i']));
          assert rest[i'] == lines[i' + 1];
        }
      }
    }
  }

  /** Every line whose word is non-empty has its record among those loaded. */
  lemma {:induction false} LoadedComplete(host: Host, lines: seq<string>)
    ensures forall i :: 0 <= i < |lines| && LineWord(host, lines[i]) != "" ==>
      MakeRecord(host, LineWord(host, lines[i])) in Loaded(host, lines)
  {
    if lines != [] {
      var rest := lines[1..];
      LoadedComplete(host, rest);
      forall i | 0 <= i < |lines| && LineWord(host, lines[i]) != ""
        ensures MakeRecord(host, LineWord(host, lines[i])) in Loaded(host, lines)
      {
        if i > 0 {
          assert rest[i - 1] == lines[i];
        }
      }
    }
  }

  /** The loop of `load_words`: read the lines in order, appending one record per non-empty word. */
  method ReadRecords(host: Host, lines: seq<string>) returns (words: seq<WordRecord>)
    ensures words == Loaded(host, lines)
  {
    words := [];
    for i := 0 to |lines|
      invariant words == Loaded(host, lines[..i])
    {
      var w := Norm(host, Strip(lines[i]));
      if w != "" {
        words := words + [WordRecord(w, host.lower(w), |w|)];
      }
      assert lines[..i + 1] == lines[..i] + [lines[i]];
      LoadedAppend(host, lines[..i], [lines[i]]);
      LoadedSingle(host, lines[i]);
    }
    assert lines[..|lines|] == lines;
  }

  /**
   * The memoised `load_words`: the file's lines are fixed for the life of the
   * store, and `cache` holds the record list once it has been built.
   */
  class WordStore {
    const host: Host
    const file: seq<string>
    var cache: Option<seq<WordRecord>>
    /** How many times the file has been read. */
    ghost var fileReads: nat

    ghost predicate Valid()
      reads this
    {
      match cache
      case None => fileReads == 0
      case Some(words) => words == Loaded(host, file) && fileReads == 1
    }

    constructor (host: Host, file: seq<string>)
      ensures Valid()
      ensures this.host == host && this.file == file
      ensures cache == None && fileReads == 0
    {
      this.host := host;
      this.file := file;
      cache := None;
      fileReads := 0;
    }

    /**
     * The first call reads the file and caches the result; later calls
     * return the cached list, identical to the first, without reading again.
     */
    method LoadWords() returns (words: seq<WordRecord>)
      requires Valid()
      modifies this
      ensures Valid()
      ensures words == Loaded(host, file)
      ensures cache == Some(words) && fileReads == 1
      ensures old(cache).Some? ==> words == old(cache).value && fileReads == old(fileReads)
    {
      if cache.Some? {
        return cache.value;
      }
      words := ReadRecords(host, file);
      cache := Some(words);
      fileReads := fileReads + 1;
    }
  }
}
