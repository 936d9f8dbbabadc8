/** The exceptions file `geoip.exceptions` beside the application's configuration:
    one entry per line, lines starting with `#`, `//` or `;` being comments. The
    module keeps the non-comment lines of the last version it read, and the
    file's modification time as the marker of that version. */
module ExceptionsFile {
  import opened Java

  /** The file as seen at one moment: its lines are what BufferedReader.readLine gives. */
  type TextFile = Snapshot<seq<string>>

  /** The comment test of refreshExceptions: a line whose indexOf("#"), indexOf("//") or indexOf(";") is 0. */
  predicate IsComment(line: string)
  {
    StartsWith(line, "#") || StartsWith(line, "//") || StartsWith(line, ";")
  }

  /** The lines that are not comments, in file order. */
  function NonComments(lines: seq<string>): seq<string>
  {
    if lines == [] then []
    else
      var last := lines[|lines| - 1];
      NonComments(lines[..|lines| - 1]) + (if IsComment(last) then [] else [last])
  }

  /** Filtering a file piece by piece gives the filtering of the whole: the order of
      the file is kept. */
  lemma {:induction false} NonCommentsAppend(a: seq<string>, b: seq<string>)
    ensures NonComments(a + b) == NonComments(a) + NonComments(b)
    decreases |b|
  {
    if b != [] {
      var init := b[..|b| - 1];
      ConcatFront(a, b);
      NonCommentsAppend(a, init);
    } else {
      assert a + b == a;
    }
  }

  /** A line is kept exactly when it is in the file and is not a comment. */
  lemma {:induction false} NonCommentsMembers(lines: seq<string>)
    ensures forall x :: x in NonComments(lines) <==> x in lines && !IsComment(x)
  {
    if lines != [] {
      var init := lines[..|lines| - 1];
      NonCommentsMembers(init);
      FrontLast(lines);
    }
  }

  /** Filtering twice is filtering once. */
  lemma {:induction false} NonCommentsIdempotent(lines: seq<string>)
    ensures NonComments(NonComments(lines)) == NonComments(lines)
  {
    if lines != [] {
      var init := lines[..|lines| - 1];
      var last := lines[|lines| - 1];
      NonCommentsIdempotent(init);
      var tail := if IsComment(last) then [] else [last];
      NonCommentsAppend(NonComments(init), tail);
      assert NonComments(tail) == tail by {
        if tail != [] {
          assert tail[..0] == [];
        }
      }
    }
  }

  /** The exceptions list and the modification time it was read at. */
  datatype ExceptionsState = ExceptionsState(lastModified: int, lines: seq<string>)

  /** refreshExceptions: nothing happens while the marker equals the file's
      lastModified(); a file that has gone empties the list and keeps the marker; a
      file that is there moves the marker and, when it can be opened, replaces the
      list by its non-comment lines. */
  function Refreshed(s: ExceptionsState, file: TextFile): ExceptionsState
  {
    if s.lastModified == file.LastModified() then s
    else if !file.present then s.(lines := [])
    else if !file.readable then s.(lastModified := file.LastModified())
    else ExceptionsState(file.LastModified(), NonComments(file.contents))
  }

  /** While the marker equals the file's lastModified(), a refresh changes nothing. */
  lemma RefreshUnchanged(s: ExceptionsState, file: TextFile)
    requires s.lastModified == file.LastModified()
    ensures Refreshed(s, file) == s
  {
  }

  /** A second refresh with no change to the file changes nothing, whatever the first
      one found. */
  lemma RefreshIdempotent(s: ExceptionsState, file: TextFile)
    ensures Refreshed(Refreshed(s, file), file) == Refreshed(s, file)
  {
  }

  /** The three outcomes of a refresh that saw a change: a file that opens gives its
      non-comment lines in file order, and nothing else; a file that is there but
      does not open moves the marker and keeps the old list; a removed file empties
      the list and keeps the marker. */
  lemma RefreshOutcomes(s: ExceptionsState, file: TextFile)
    requires s.lastModified != file.LastModified()
    ensures file.CanOpen() ==>
              && Refreshed(s, file).lastModified == file.mtime
              && Refreshed(s, file).lines == NonComments(file.contents)
              && (forall x :: x in Refreshed(s, file).lines <==> x in file.contents && !IsComment(x))
    ensures file.present && !file.readable ==> Refreshed(s, file) == s.(lastModified := file.mtime)
    ensures !file.present ==> Refreshed(s, file) == ExceptionsState(s.lastModified, [])
  {
    NonCommentsMembers(file.contents);
  }
}
