/**
 * `loadTextFile`: reading a list file (exclusions, priorities, contact lines).
 * Opening and scanning the file is abstracted into a reader that yields the file's
 * lines as the scanner splits them, or the error from opening or scanning it.
 */
module Lines {
  import opened Wrappers
  import opened Text
  import opened Positions

  type FileReader = string -> Result<seq<string>, string>

  /** A trimmed line is kept when it is non-empty and not a `#` comment. */
  predicate Meaningful(line: string) {
    line != "" && line[0] != '#'
  }

  /** The trimmed, meaningful lines of `raw`, in their original order. */
  function KeptLines(raw: seq<string>): seq<string> {
    if raw == [] then []
    else
      var line := TrimSpace(raw[|raw| - 1]);
      KeptLines(raw[..|raw| - 1]) + (if Meaningful(line) then [line] else [])
  }

  /** What `loadTextFile(filename)` returns. */
  function ReadList(filename: string, read: FileReader): Result<seq<string>, string> {
    if filename == "" then Success([])
    else match read(filename)
      case Failure(e) => Failure(e)
      case Success(raw) => Success(KeptLines(raw))
  }

  /** `loadTextFile`: the scanning loop appends each trimmed, meaningful line. */
  method LoadTextFile(filename: string, read: FileReader) returns (r: Result<seq<string>, string>)
    ensures filename == "" ==> r == Success([])
    ensures r == ReadList(filename, read)
  {
    if filename == "" {
      return Success([]);
    }
    var contents := read(filename);
    if contents.Failure? {
      return Failure(contents.error);
    }
    var raw := contents.value;
    var lines: seq<string> := [];
    var i := 0;
    while i < |raw|
      invariant 0 <= i <= |raw|
      invariant lines == KeptLines(raw[..i])
    {
      var line := TrimSpace(raw[i]);
      if line != "" && line[0] != '#' {
        lines := lines + [line];
      }
      assert raw[..i + 1][..i] == raw[..i];
      i := i + 1;
    }
    assert raw[..i] == raw;
    r := Success(lines);
  }

  /** Every returned line is trimmed, non-empty and not a comment. */
  lemma {:induction false} KeptLinesClean(raw: seq<string>)
    ensures forall line :: line in KeptLines(raw) ==> TrimSpace(line) == line && Meaningful(line)
  {
    if raw != [] {
      KeptLinesClean(raw[..|raw| - 1]);
      TrimSpaceIdempotent(raw[|raw| - 1]);
    }
  }

  /** Reading a list file splits over concatenation, so each raw line is judged on its own. */
  lemma {:induction false} KeptLinesAppend(a: seq<string>, b: seq<string>)
    ensures KeptLines(a + b) == KeptLines(a) + KeptLines(b)
  {
    if b != [] {
      var b' := b[..|b| - 1];
      assert (a + b)[..|a + b| - 1] == a + b';
      KeptLinesAppend(a, b');
    } else {
      assert a + b == a;
    }
  }

  /** The positions of the raw lines that survive, in increasing order. */
  ghost function KeptPositions(raw: seq<string>): seq<nat> {
    if raw == [] then []
    else
      var rest := KeptPositions(raw[..|raw| - 1]);
      if Meaningful(TrimSpace(raw[|raw| - 1])) then rest + [|raw| - 1] else rest
  }

  /** The surviving positions are increasing, in range, and as many as the lines returned. */
  lemma {:induction false} KeptPositionsShape(raw: seq<string>)
    ensures |KeptPositions(raw)| == |KeptLines(raw)| && IsEmbedding(KeptPositions(raw), |raw|)
  {
    if raw != [] {
      KeptPositionsShape(raw[..|raw| - 1]);
    }
  }

  /** The k-th returned line is the trimmed text of the raw line at the k-th surviving position. */
  lemma {:induction false} KeptPositionsText(raw: seq<string>)
    ensures |KeptPositions(raw)| == |KeptLines(raw)| && IsEmbedding(KeptPositions(raw), |raw|)
    ensures forall k :: 0 <= k < |KeptPositions(raw)| ==>
      KeptLines(raw)[k] == TrimSpace(raw[KeptPositions(raw)[k]])
  {
    KeptPositionsShape(raw);
    if raw != [] {
      var n := |raw|;
      var init := raw[..n - 1];
      KeptPositionsText(init);
      KeptPositionsShape(init);
      var rest := KeptPositions(init);
      var idx := KeptPositions(raw);
      forall k | 0 <= k < |idx|
        ensures KeptLines(raw)[k] == TrimSpace(raw[idx[k]])
      {
        if k < |rest| {
          assert idx[k] == rest[k];
          assert init[rest[k]] == raw[rest[k]];
        }
      }
    }
  }

  /** A raw line survives exactly when its trimmed text is meaningful. */
  lemma {:induction false} KeptPositionsMembers(raw: seq<string>)
    ensures forall i :: 0 <= i < |raw| ==> (i in KeptPositions(raw) <==> Meaningful(TrimSpace(raw[i])))
  {
    if raw != [] {
      var n := |raw|;
      var init := raw[..n - 1];
      KeptPositionsMembers(init);
      KeptPositionsShape(init);
      var rest := KeptPositions(init);
      var idx := KeptPositions(raw);
      forall i | 0 <= i < n
        ensures i in idx <==> Meaningful(TrimSpace(raw[i]))
      {
        if i < n - 1 {
          assert init[i] == raw[i];
          assert i in idx <==> i in rest;
        }
      }
    }
  }
}
