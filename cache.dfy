/**
 * The envelope of vgrep's cache: cacheWriterHelper stores the records
 * followed by a one-field row holding the working directory, and loadCache
 * pops that row again and refuses a cache written in another directory.
 * The working directory is a parameter; the file and its JSON encoding are
 * not modelled.
 */
module Cache {
  import opened Wrappers
  import opened Store

  /** The four fields a record is stored as. */
  function Row(m: Match): seq<string> {
    [m.index, m.file, m.line, m.content]
  }

  function Rows(ms: seq<Match>): (rows: seq<seq<string>>)
    ensures |rows| == |ms| && forall i :: 0 <= i < |ms| ==> rows[i] == Row(ms[i])
  {
    if ms == [] then [] else [Row(ms[0])] + Rows(ms[1..])
  }

  /** What cacheWriterHelper stores: the rows, then the working directory as a row of its own. */
  function Envelope(rows: seq<seq<string>>, workDir: string): (stored: seq<seq<string>>)
    ensures |stored| == |rows| + 1 && stored[..|rows|] == rows && stored[|rows|] == [workDir]
  {
    rows + [[workDir]]
  }

  /**
   * The outcome of loadCache: the rows it leaves behind and the error it
   * reports, or a panic when the last stored row has no field to read.
   */
  datatype Load = Loaded(rows: seq<seq<string>>, error: Option<string>) | Panicked

  /** The message loadCache reports for a cache written in directory dir. */
  function MovedError(dir: string): string {
    "please cd into " + dir + " to use old cache"
  }

  /**
   * loadCache after decoding: an empty cache loads as it is; otherwise the
   * last row's first field is the directory the cache was written in, the
   * row is dropped, and a directory other than workDir is reported. The
   * rows are kept even then, as the source truncates before it compares.
   */
  function LoadCache(stored: seq<seq<string>>, workDir: string): (r: Load)
    ensures r.Panicked? <==> |stored| > 0 && stored[|stored| - 1] == []
    ensures r.Loaded? && stored != [] ==> r.rows == stored[..|stored| - 1]
    ensures r.Loaded? && stored != [] ==>
              (r.error.None? <==> stored[|stored| - 1][0] == workDir)
  {
    if |stored| == 0 then Loaded([], None)
    else
      var last := stored[|stored| - 1];
      if |last| == 0 then Panicked
      else
        var oldWorkDir := last[0];
        var rows := stored[..|stored| - 1];
        if workDir != oldWorkDir then Loaded(rows, Some(MovedError(oldWorkDir)))
        else Loaded(rows, None)
  }

  /** Loading in the directory a cache was written in gives back the stored records. */
  lemma CacheRoundTrip(ms: seq<Match>, workDir: string)
    ensures LoadCache(Envelope(Rows(ms), workDir), workDir) == Loaded(Rows(ms), None)
  {
    var stored := Envelope(Rows(ms), workDir);
    assert stored[..|stored| - 1] == Rows(ms);
  }

  /** Loading elsewhere keeps the records but names the directory to go to. */
  lemma CacheMoved(rows: seq<seq<string>>, written: string, workDir: string)
    requires written != workDir
    ensures LoadCache(Envelope(rows, written), workDir) == Loaded(rows, Some(MovedError(written)))
  {
    var stored := Envelope(rows, written);
    assert stored[..|stored| - 1] == rows;
  }

  /** An empty cache loads nothing and reports nothing. */
  lemma EmptyCache(workDir: string)
    ensures LoadCache([], workDir) == Loaded([], None)
  {
  }
}
