/**
 * `WatcherHandler` (src/log_proxy/watcher.py): tails log files.  For every
 * watched path it remembers in `observed` how far the file has been
 * delivered; a modification event reads the file from there and hands each
 * complete, non-blank line to the logging system, stripped.
 *
 * The file system is supplied as parameters: a file is its text (its size
 * is the text's length) and a directory is the list of files `os.walk`
 * yields under it, each with its size.  `match_file` is the abstract
 * predicate `matches`.
 */
module Watcher {
  import opened Optional
  import Strings

  /** The watchdog events `on_modified` receives; only `FileModifiedEvent` is acted upon. */
  datatype Event = FileModified(srcPath: string) | OtherEvent(srcPath: string)

  /** What `read_initial_size` finds at a path: a regular file, or the files `os.walk` yields below it. */
  datatype PathEntry = File(size: nat) | Directory(files: seq<(string, nat)>)

  // ---------------------------------------------------------------------------
  // Line iteration over a text file opened in text mode
  // ---------------------------------------------------------------------------

  /** `line.endswith("\n")` */
  predicate Terminated(line: string) {
    line != [] && line[|line| - 1] == '\n'
  }

  /** The characters that end a line in text mode: `\n`, and `\r` alone or before `\n`. */
  predicate IsBreak(c: char) {
    c == '\n' || c == '\r'
  }

  /**
   * The text `open(path)` reads from offset `i` on (universal newlines):
   * every `\r\n` and every other `\r` becomes a single `\n`.
   */
  function Translate(s: string, i: nat): string
    requires i <= |s|
    decreases |s| - i
  {
    if i == |s| then []
    else if s[i] == '\r' && i + 1 < |s| && s[i + 1] == '\n' then "\n" + Translate(s, i + 2)
    else if s[i] == '\r' then "\n" + Translate(s, i + 1)
    else [s[i]] + Translate(s, i + 1)
  }

  /** The text a sequence of lines spells out. */
  function Concat(lines: seq<string>): string {
    if lines == [] then [] else Concat(lines[..|lines| - 1]) + lines[|lines| - 1]
  }

  lemma {:induction false} ConcatAppend(a: seq<string>, b: seq<string>)
    ensures Concat(a + b) == Concat(a) + Concat(b)
    decreases |b|
  {
    if b != [] {
      var b' := b[..|b| - 1];
      assert (a + b)[..|a + b| - 1] == a + b';
      ConcatAppend(a, b');
    } else {
      assert a + b == a;
    }
  }

  /**
   * Where the line that starts at offset `i` of the file ends: just past its
   * `\n`, its `\r\n` or its lone `\r`, or at the end of the file.
   */
  function LineEnd(s: string, i: nat): (n: nat)
    requires i < |s|
    ensures i < n <= |s|
    decreases |s| - i
  {
    if s[i] == '\r' && i + 1 < |s| && s[i + 1] == '\n' then i + 2
    else if IsBreak(s[i]) || i + 1 == |s| then i + 1
    else LineEnd(s, i + 1)
  }

  /** The line Python yields for the line starting at `i`: its characters, with its break as one `\n`. */
  function LineText(s: string, i: nat): string
    requires i < |s|
    decreases |s| - i
  {
    if IsBreak(s[i]) then "\n"
    else if i + 1 == |s| then [s[i]]
    else [s[i]] + LineText(s, i + 1)
  }

  /** `fp.seek(i)` followed by `for line in fp`: the lines of the file from offset `i` on. */
  function Lines(s: string, i: nat): seq<string>
    requires i <= |s|
    decreases |s| - i
  {
    if i == |s| then [] else [LineText(s, i)] + Lines(s, LineEnd(s, i))
  }

  /** A line is not empty, holds no `\r`, and a `\n` only as its last character. */
  lemma {:induction false} LineTextChars(s: string, i: nat)
    requires i < |s|
    ensures var line := LineText(s, i);
            line != []
            && (forall k :: 0 <= k < |line| ==> line[k] != '\r')
            && (forall k :: 0 <= k < |line| - 1 ==> line[k] != '\n')
    decreases |s| - i
  {
    if !IsBreak(s[i]) && i + 1 < |s| {
      LineTextChars(s, i + 1);
      var line, tail := LineText(s, i), LineText(s, i + 1);
      assert line == [s[i]] + tail;
      assert forall k :: 0 < k < |line| ==> line[k] == tail[k - 1];
    }
  }

  /**
   * A line is terminated exactly when the file has a break at its end, and it
   * stops before the end of the file only there; a line that has no break
   * holds none at all.
   */
  lemma {:induction false} LineBreak(s: string, i: nat)
    requires i < |s|
    ensures var line, n := LineText(s, i), LineEnd(s, i);
            (Terminated(line) <==> IsBreak(s[n - 1]))
            && (n < |s| ==> IsBreak(s[n - 1]))
            && (!IsBreak(s[n - 1]) ==> forall k :: i <= k < n ==> !IsBreak(s[k]))
    decreases |s| - i
  {
    if !IsBreak(s[i]) && i + 1 < |s| {
      LineBreak(s, i + 1);
      assert LineEnd(s, i) == LineEnd(s, i + 1);
      var line, tail := LineText(s, i), LineText(s, i + 1);
      assert Terminated(line) == Terminated(tail) by {
        assert line == [s[i]] + tail && tail != [];
        assert line[|line| - 1] == tail[|tail| - 1];
      }
    }
  }

  /** Translation shortens a line only when it ends in `\r\n`, by one character. */
  lemma {:induction false} LineLength(s: string, i: nat)
    requires i < |s|
    ensures var n := LineEnd(s, i);
            |LineText(s, i)| + (if n >= i + 2 && s[n - 2] == '\r' && s[n - 1] == '\n' then 1 else 0) == n - i
    decreases |s| - i
  {
    if !IsBreak(s[i]) && i + 1 < |s| {
      LineLength(s, i + 1);
    }
  }

  /** The three facts about one line together. */
  lemma {:induction false} LineTextSpec(s: string, i: nat)
    requires i < |s|
    ensures var line, n := LineText(s, i), LineEnd(s, i);
            line != []
            && (forall k :: 0 <= k < |line| ==> line[k] != '\r')
            && (forall k :: 0 <= k < |line| - 1 ==> line[k] != '\n')
            && (Terminated(line) <==> IsBreak(s[n - 1]))
            && (n < |s| ==> IsBreak(s[n - 1]))
            && (!IsBreak(s[n - 1]) ==> forall k :: i <= k < n ==> !IsBreak(s[k]))
            && |line| + (if n >= i + 2 && s[n - 2] == '\r' && s[n - 1] == '\n' then 1 else 0) == n - i
  {
    LineTextChars(s, i);
    LineBreak(s, i);
    LineLength(s, i);
  }

  /** The line starting at `i` followed by the rest: reading lines reads the translated text. */
  lemma {:induction false} LineTranslate(s: string, i: nat)
    requires i < |s|
    ensures Translate(s, i) == LineText(s, i) + Translate(s, LineEnd(s, i))
    decreases |s| - i
  {
    if !IsBreak(s[i]) && i + 1 < |s| {
      LineTranslate(s, i + 1);
      assert Translate(s, i) == [s[i]] + Translate(s, i + 1);
    }
  }

  /** The lines spell out the translated text from the offset on. */
  lemma {:induction false} LinesConcat(s: string, i: nat)
    requires i <= |s|
    ensures Concat(Lines(s, i)) == Translate(s, i)
    decreases |s| - i
  {
    if i < |s| {
      var n := LineEnd(s, i);
      var one: seq<string> := [LineText(s, i)];
      assert Concat(one) == LineText(s, i) by {
        assert one[..0] == [];
      }
      LinesConcat(s, n);
      ConcatAppend(one, Lines(s, n));
      LineTranslate(s, i);
    }
  }

  /**
   * How Python cuts text-mode input into lines: no line is empty or holds a
   * `\r`, a newline can only be a line's last character, and every line but
   * the last one is terminated.
   */
  predicate WellCut(lines: seq<string>) {
    (forall j :: 0 <= j < |lines| ==> lines[j] != [])
    && (forall j, k :: 0 <= j < |lines| && 0 <= k < |lines[j]| ==> lines[j][k] != '\r')
    && (forall j, k :: 0 <= j < |lines| && 0 <= k < |lines[j]| - 1 ==> lines[j][k] != '\n')
    && (forall j :: 0 <= j < |lines| - 1 ==> Terminated(lines[j]))
  }

  lemma {:induction false} LinesShape(s: string, i: nat)
    requires i <= |s|
    ensures WellCut(Lines(s, i))
    decreases |s| - i
  {
    if i < |s| {
      var n := LineEnd(s, i);
      LineTextSpec(s, i);
      LinesShape(s, n);
      var r, first, tail := Lines(s, i), LineText(s, i), Lines(s, n);
      assert r == [first] + tail;
      assert tail != [] ==> Terminated(first) by {
        if tail != [] {
          assert n < |s|;
        }
      }
      forall j | 0 < j < |r| ensures r[j] == tail[j - 1] {
      }
    }
  }

  /** `not line.strip()`: the line is whitespace only. */
  predicate Blank(line: string) {
    forall i :: 0 <= i < |line| ==> Strings.IsSpace(line[i])
  }

  /** A line `on_modified` delivers: terminated and not blank. */
  predicate Delivered(line: string) {
    Terminated(line) && !Blank(line)
  }

  /**
   * The loop of `on_modified` over the lines after the start offset, as
   * written: the delivered lines in file order, and how far the offset
   * advances, which is the length of the delivered lines only.
   */
  function Scan(lines: seq<string>): (r: (seq<string>, nat))
    ensures |r.0| <= |lines|
  {
    if lines == [] then ([], 0)
    else
      var prev, line := Scan(lines[..|lines| - 1]), lines[|lines| - 1];
      if Delivered(line) then (prev.0 + [line], prev.1 + |line|) else prev
  }

  /** Only terminated, non-blank lines are delivered. */
  lemma {:induction false} ScanDelivered(lines: seq<string>)
    ensures forall k :: 0 <= k < |Scan(lines).0| ==> Delivered(Scan(lines).0[k])
  {
    if lines != [] {
      ScanDelivered(lines[..|lines| - 1]);
    }
  }

  /** One more line: it is delivered and advances the offset exactly when it is terminated and not blank. */
  lemma {:induction false} ScanStep(lines: seq<string>, i: nat)
    requires i < |lines|
    ensures var prev, line := Scan(lines[..i]), lines[i];
            Scan(lines[..i + 1]) == if Delivered(line) then (prev.0 + [line], prev.1 + |line|) else prev
  {
    assert lines[..i + 1][..i] == lines[..i];
  }

  /** What `on_new_line` receives for each delivered line: the line stripped. */
  function StripAll(lines: seq<string>): (r: seq<string>)
    ensures |r| == |lines| && forall k :: 0 <= k < |lines| ==> r[k] == Strings.Strip(lines[k])
  {
    seq(|lines|, k requires 0 <= k < |lines| => Strings.Strip(lines[k]))
  }

  lemma {:induction false} StripAllAppend(a: seq<string>, b: seq<string>)
    ensures StripAll(a + b) == StripAll(a) + StripAll(b)
  {
  }

  /** Every line handed to the logger is non-empty and has no whitespace at either end. */
  lemma {:induction false} LoggedLinesAreStripped(lines: seq<string>)
    ensures forall k :: 0 <= k < |Scan(lines).0| ==>
              var e := StripAll(Scan(lines).0)[k];
              e != [] && !Strings.IsSpace(e[0]) && !Strings.IsSpace(e[|e| - 1])
  {
    var d := Scan(lines).0;
    ScanDelivered(lines);
    forall k | 0 <= k < |d|
      ensures var e := StripAll(d)[k]; e != [] && !Strings.IsSpace(e[0]) && !Strings.IsSpace(e[|e| - 1])
    {
      assert !Blank(d[k]) && StripAll(d)[k] == Strings.Strip(d[k]);
    }
  }

  /** The length of the terminated lines: what a reader of whole lines has read, in translated characters. */
  function Consumed(lines: seq<string>): nat {
    if lines == [] then 0
    else
      var line := lines[|lines| - 1];
      Consumed(lines[..|lines| - 1]) + if Terminated(line) then |line| else 0
  }

  /** `Scan` is a left-to-right fold: scanning two runs of lines is scanning each in turn. */
  lemma {:induction false} ScanAppend(a: seq<string>, b: seq<string>)
    ensures Scan(a + b) == (Scan(a).0 + Scan(b).0, Scan(a).1 + Scan(b).1)
    decreases |b|
  {
    if b == [] {
      assert a + b == a;
      assert Scan(a).0 + [] == Scan(a).0;
    } else {
      var b', line := b[..|b| - 1], b[|b| - 1];
      assert (a + b)[..|a + b| - 1] == a + b' && (a + b)[|a + b| - 1] == line;
      ScanAppend(a, b');
      var sa, sb' := Scan(a), Scan(b');
      if Delivered(line) {
        var x := line;
        assert Scan(a + b) == ((sa.0 + sb'.0) + [x], (sa.1 + sb'.1) + |line|);
        assert Scan(b) == (sb'.0 + [x], sb'.1 + |line|);
        assert (sa.0 + sb'.0) + [x] == sa.0 + (sb'.0 + [x]);
      } else {
        assert Scan(a + b) == Scan(a + b') && Scan(b) == sb';
      }
    }
  }

  /** Likewise, the whole lines of two runs are those of each. */
  lemma {:induction false} ConsumedAppend(a: seq<string>, b: seq<string>)
    ensures Consumed(a + b) == Consumed(a) + Consumed(b)
    decreases |b|
  {
    if b == [] {
      assert a + b == a;
    } else {
      var b' := b[..|b| - 1];
      assert (a + b)[..|a + b| - 1] == a + b' && (a + b)[|a + b| - 1] == b[|b| - 1];
      ConsumedAppend(a, b');
    }
  }

  /** The offset as written never passes the end of the whole lines, and reaches it when no line is blank. */
  lemma {:induction false} ScanLagsConsumed(lines: seq<string>)
    ensures Scan(lines).1 <= Consumed(lines)
    ensures (forall i :: 0 <= i < |lines| && Terminated(lines[i]) ==> !Blank(lines[i]))
            ==> Scan(lines).1 == Consumed(lines)
  {
    if lines != [] {
      var prev := lines[..|lines| - 1];
      assert forall i :: 0 <= i < |prev| ==> prev[i] == lines[i];
      ScanLagsConsumed(prev);
    }
  }

  /** A line starting at `i` followed by the rest: what reading from its start delivers and consumes. */
  lemma {:induction false} LinesStep(s: string, i: nat)
    requires i < |s|
    ensures var one: seq<string> := [LineText(s, i)];
            var rest := Lines(s, LineEnd(s, i));
            Scan(Lines(s, i)) == (Scan(one).0 + Scan(rest).0, Scan(one).1 + Scan(rest).1)
            && Consumed(Lines(s, i)) == Consumed(one) + Consumed(rest)
  {
    var one: seq<string> := [LineText(s, i)];
    var rest := Lines(s, LineEnd(s, i));
    assert Lines(s, i) == one + rest;
    ScanAppend(one, rest);
    ConsumedAppend(one, rest);
  }

  /** What reading from a line's start delivers: that line's delivery, then the rest's. */
  lemma {:induction false} LinesScan(s: string, i: nat)
    requires i < |s|
    ensures Scan(Lines(s, i)).0 == Scan([LineText(s, i)]).0 + Scan(Lines(s, LineEnd(s, i))).0
  {
    var one: seq<string> := [LineText(s, i)];
    assert Lines(s, i) == one + Lines(s, LineEnd(s, i));
    ScanAppend(one, Lines(s, LineEnd(s, i)));
  }

  /**
   * `fp.tell()` after the whole lines read from `i`: the file offset just
   * past the last line that has a break, or `i` when none has.
   */
  function WholeEnd(s: string, i: nat): nat
    requires i <= |s|
    decreases |s| - i
  {
    if i == |s| then i
    else
      var n := LineEnd(s, i);
      if IsBreak(s[n - 1]) then WholeEnd(s, n) else i
  }

  /**
   * The whole lines end at the offset itself or just past a break, and no
   * break follows: the end of the whole lines is just past the file's last
   * break from `i` on.
   */
  lemma {:induction false} WholeEndSpec(s: string, i: nat)
    requires i <= |s|
    ensures var w := WholeEnd(s, i);
            i <= w <= |s| && (w == i || IsBreak(s[w - 1])) && forall k :: w <= k < |s| ==> !IsBreak(s[k])
    decreases |s| - i
  {
    if i < |s| {
      LineTextSpec(s, i);
      var n := LineEnd(s, i);
      if IsBreak(s[n - 1]) {
        WholeEndSpec(s, n);
      }
    }
  }

  /**
   * Counting whole lines in translated characters never passes the file
   * offset where they end, and reaches it when the file holds no `\r`.
   */
  lemma {:induction false} ConsumedLagsWholeEnd(s: string, i: nat)
    requires i <= |s|
    ensures i + Consumed(Lines(s, i)) <= WholeEnd(s, i)
    ensures (forall k :: i <= k < |s| ==> s[k] != '\r') ==> i + Consumed(Lines(s, i)) == WholeEnd(s, i)
    decreases |s| - i
  {
    if i < |s| {
      var n, line := LineEnd(s, i), LineText(s, i);
      var one: seq<string> := [line];
      LineTextSpec(s, i);
      LinesStep(s, i);
      ConsumedLagsWholeEnd(s, n);
      assert one[..0] == [];
      if !IsBreak(s[n - 1]) {
        assert Lines(s, n) == [];
      }
    }
  }

  /** Reading text appended to `a` from offset `|a| + j` reads `b` from `j`. */
  lemma {:induction false} LineShift(a: string, b: string, j: nat)
    requires j < |b|
    ensures LineEnd(a + b, |a| + j) == |a| + LineEnd(b, j)
    ensures LineText(a + b, |a| + j) == LineText(b, j)
    decreases |b| - j
  {
    var ab := a + b;
    assert ab[|a| + j] == b[j];
    assert j + 1 < |b| ==> ab[|a| + j + 1] == b[j + 1];
    if !IsBreak(b[j]) && j + 1 < |b| {
      LineShift(a, b, j + 1);
    }
  }

  lemma {:induction false} LinesShift(a: string, b: string, j: nat)
    requires j <= |b|
    ensures Lines(a + b, |a| + j) == Lines(b, j)
    decreases |b| - j
  {
    if j < |b| {
      var ab := a + b;
      var n := LineEnd(b, j);
      LineShift(a, b, j);
      assert Lines(ab, |a| + j) == [LineText(b, j)] + Lines(ab, |a| + n);
      LinesShift(a, b, n);
    }
  }

  /** A line that ends at a break keeps its text when the file grows. */
  lemma {:induction false} LineTextGrows(first: string, more: string, i: nat)
    requires i < |first| && IsBreak(first[LineEnd(first, i) - 1])
    ensures LineText(first + more, i) == LineText(first, i)
    decreases |first| - i
  {
    var all := first + more;
    assert all[i] == first[i];
    if !IsBreak(first[i]) {
      assert i + 1 < |first|;
      LineTextGrows(first, more, i + 1);
    }
  }

  /**
   * A line that ends at a break keeps its end when the file grows, unless the
   * break is a final `\r` and the appended text starts with `\n`, which joins
   * it as `\r\n`.
   */
  lemma {:induction false} LineEndGrows(first: string, more: string, i: nat)
    requires i < |first| && IsBreak(first[LineEnd(first, i) - 1])
    ensures var n, all := LineEnd(first, i), first + more;
            LineEnd(all, i) == if first[n - 1] == '\r' && n == |first| && more != [] && more[0] == '\n' then n + 1 else n
    decreases |first| - i
  {
    var all := first + more;
    assert all[i] == first[i];
    if !IsBreak(first[i]) {
      assert i + 1 < |first|;
      LineEndGrows(first, more, i + 1);
    } else if i + 1 < |first| {
      assert all[i + 1] == first[i + 1];
    } else if more != [] {
      assert all[i + 1] == more[0];
    }
  }

  /** The resumption facts of `ResumeFrom` for reading from `i`, with `w` the end of the whole lines of `first`. */
  ghost predicate Resumes(first: string, more: string, i: nat, w: nat)
    requires i <= |first| && w <= |first|
  {
    var all := first + more;
    Scan(Lines(all, i)).0 == Scan(Lines(first, i)).0 + Scan(Lines(all, w)).0
    && WholeEnd(all, i) == WholeEnd(all, w)
  }

  /** The line at `i` has no break, so the first text has no whole line from `i` on. */
  lemma {:induction false} ResumeUnbroken(first: string, more: string, i: nat)
    requires i < |first| && LineEnd(first, i) == |first| && !Terminated(LineText(first, i))
    ensures Resumes(first, more, i, i)
  {
    var one: seq<string> := [LineText(first, i)];
    assert Lines(first, i) == one + [];
    assert one[..0] == [];
    assert Scan(Lines(first, i)).0 == [];
  }

  /** The line at `i` ends at the same break in the grown file; what follows resumes as before. */
  lemma {:induction false} ResumeKeep(first: string, more: string, i: nat, w: nat)
    requires i < |first| && w <= |first|
    requires var n, all := LineEnd(first, i), first + more;
             n <= w && LineEnd(all, i) == n && LineText(all, i) == LineText(first, i)
             && IsBreak(all[n - 1]) && Resumes(first, more, n, w)
    ensures Resumes(first, more, i, w)
  {
    var n, all := LineEnd(first, i), first + more;
    var a := Scan([LineText(first, i)]).0;
    var b, c := Scan(Lines(first, n)).0, Scan(Lines(all, w)).0;
    assert Scan(Lines(all, n)).0 == b + c && WholeEnd(all, n) == WholeEnd(all, w);
    assert Scan(Lines(first, i)).0 == a + b by {
      LinesScan(first, i);
    }
    assert Scan(Lines(all, i)).0 == a + (b + c) by {
      LinesScan(all, i);
    }
    assert a + (b + c) == (a + b) + c;
    assert WholeEnd(all, i) == WholeEnd(all, n);
  }

  /**
   * The first text ends in a `\r` that the grown file's next `\n` joins: the
   * grown file reads that line whole, then the `\n` alone is a blank line.
   */
  lemma {:induction false} ResumeJoin(first: string, more: string, i: nat)
    requires i < |first| && LineEnd(first, i) == |first| && Terminated(LineText(first, i))
    requires var all := first + more;
             |all| > |first| && all[|first|] == '\n'
             && LineEnd(all, i) == |first| + 1 && LineText(all, i) == LineText(first, i)
    ensures Resumes(first, more, i, |first|)
  {
    var n, all := |first|, first + more;
    var a := Scan([LineText(first, i)]).0;
    var c := Scan(Lines(all, n + 1)).0;
    assert Scan(Lines(first, i)).0 == a by {
      LinesScan(first, i);
      assert Lines(first, n) == [];
    }
    assert Scan(Lines(all, i)).0 == a + c by {
      LinesScan(all, i);
    }
    assert Scan(Lines(all, n)).0 == c by {
      LinesScan(all, n);
      var blank: seq<string> := [LineText(all, n)];
      assert LineEnd(all, n) == n + 1 && LineText(all, n) == "\n";
      assert Blank("\n") && blank[..0] == [];
    }
    assert WholeEnd(all, i) == WholeEnd(all, n + 1);
    assert WholeEnd(all, n) == WholeEnd(all, n + 1) by {
      assert LineEnd(all, n) == n + 1;
    }
  }

  /**
   * Reading the grown file from `i` meets the end `w` of the first text's
   * whole lines: it delivers what reading the first text delivered, then what
   * reading the grown file from `w` delivers, and its whole lines end where
   * those read from `w` end.
   */
  lemma {:induction false} ResumeFrom(first: string, more: string, i: nat)
    requires i <= |first|
    ensures WholeEnd(first, i) <= |first| && Resumes(first, more, i, WholeEnd(first, i))
    decreases |first| - i
  {
    WholeEndSpec(first, i);
    if i == |first| {
      assert Scan(Lines(first, i)).0 == [];
    } else {
      var n := LineEnd(first, i);
      LineTextSpec(first, i);
      if !IsBreak(first[n - 1]) {
        ResumeUnbroken(first, more, i);
      } else {
        LineTextGrows(first, more, i);
        LineEndGrows(first, more, i);
        if LineEnd(first + more, i) == n {
          ResumeFrom(first, more, n);
          ResumeKeep(first, more, i, WholeEnd(first, n));
        } else {
          ResumeJoin(first, more, i);
        }
      }
    }
  }

  // ---------------------------------------------------------------------------
  // on_modified as a function of the observed offsets and the file
  // ---------------------------------------------------------------------------

  /** `min(self.observed.get(path, 0), size)` */
  function Start(observed: map<string, nat>, path: string, size: nat): (n: nat)
    ensures n <= size
    ensures path in observed && observed[path] <= size ==> n == observed[path]
  {
    var recorded := if path in observed then observed[path] else 0;
    if recorded < size then recorded else size
  }

  /**
   * What `on_modified(event)` logs and the offsets it leaves, given the
   * modified file's text `content`.
   */
  function Modified(observed: map<string, nat>, event: Event, content: string): (seq<string>, map<string, nat>) {
    match event
    case OtherEvent(_) => ([], observed)
    case FileModified(path) =>
      var start := Start(observed, path, |content|);
      if start >= |content| then ([], observed)
      else
        var scan := Scan(Lines(content, start));
        (StripAll(scan.0), observed[path := start + scan.1])
  }

  /**
   * Only a file modification on a file that grew past its offset does
   * anything; then only that path's entry changes, and it moves forward but
   * not past the end of the file.
   */
  lemma {:induction false} ModifiedSpec(observed: map<string, nat>, event: Event, content: string)
    ensures var (emitted, after) := Modified(observed, event, content);
            (event.OtherEvent? ==> emitted == [] && after == observed)
            && (event.FileModified? ==>
                  var start := Start(observed, event.srcPath, |content|);
                  (start >= |content| ==> emitted == [] && after == observed)
                  && (start < |content| ==>
                        after.Keys == observed.Keys + {event.srcPath}
                        && start <= after[event.srcPath] <= |content|
                        && forall p :: p in observed && p != event.srcPath ==> after[p] == observed[p]))
  {
    if event.FileModified? {
      var start := Start(observed, event.srcPath, |content|);
      if start < |content| {
        ScanLagsConsumed(Lines(content, start));
        ConsumedLagsWholeEnd(content, start);
        WholeEndSpec(content, start);
      }
    }
  }

  /**
   * Once the size of a file is recorded, its content up to there is never
   * delivered: a later modification delivers only from what was appended.
   */
  lemma {:induction false} ExistingContentNotReplayed(observed: map<string, nat>, path: string, content: string, more: string)
    requires path in observed && observed[path] == |content|
    ensures Modified(observed, FileModified(path), content + more).0 == StripAll(Scan(Lines(more, 0)).0)
  {
    assert Start(observed, path, |content + more|) == |content|;
    LinesShift(content, more, 0);
  }

  /** A run of lines that are all delivered is delivered whole, and the offset advances over all of it. */
  lemma {:induction false} ScanOfDelivered(lines: seq<string>)
    requires forall k :: 0 <= k < |lines| ==> Delivered(lines[k])
    ensures Scan(lines) == (lines, Consumed(lines))
  {
    if lines != [] {
      var prev := lines[..|lines| - 1];
      assert forall k :: 0 <= k < |prev| ==> prev[k] == lines[k];
      ScanOfDelivered(prev);
      assert prev + [lines[|lines| - 1]] == lines;
    }
  }

  /** A terminated line whose text has no whitespace at its ends strips to that text. */
  lemma {:induction false} StripOfTextLine(line: string)
    requires |line| >= 2 && line[|line| - 1] == '\n'
    requires !Strings.IsSpace(line[0]) && !Strings.IsSpace(line[|line| - 2])
    ensures Strings.Strip(line) == line[..|line| - 1]
  {
    var t := line[..|line| - 1];
    assert Strings.StripLeft(line) == line;
    assert Strings.StripRight(t) == t;
  }

  lemma {:induction false} LinesOfBlankThenText(text: string, a: char, b: char)
    requires text == ['\n', '\n', a, b, '\n'] && !IsBreak(a) && !IsBreak(b)
    ensures Lines(text, 0) == [['\n'], ['\n'], [a, b, '\n']]
  {
    assert LineEnd(text, 0) == 1 && LineEnd(text, 1) == 2;
    assert LineEnd(text, 2) == 5 by {
      assert LineEnd(text, 4) == 5;
      assert LineEnd(text, 3) == 5;
    }
    assert LineText(text, 2) == [a, b, '\n'] by {
      assert LineText(text, 4) == "\n";
      assert LineText(text, 3) == [b, '\n'];
    }
    assert Lines(text, 5) == [];
    assert Lines(text, 2) == [[a, b, '\n']] + Lines(text, 5);
    assert Lines(text, 1) == [['\n']] + Lines(text, 2);
    assert Lines(text, 0) == [['\n']] + Lines(text, 1);
  }

  lemma {:induction false} ScanOfBlankThenText(a: char, b: char)
    requires !Strings.IsSpace(a)
    ensures Scan([['\n'], ['\n'], [a, b, '\n']]) == ([[a, b, '\n']], 3)
  {
    var lines: seq<string> := [['\n'], ['\n'], [a, b, '\n']];
    var line: string := [a, b, '\n'];
    assert !Blank(line) by {
      assert !Strings.IsSpace(line[0]);
    }
    assert Blank(['\n']);
    var blanks: seq<string> := [['\n'], ['\n']];
    assert lines[..2] == blanks && blanks[..1] == [['\n']] && blanks[..1][..0] == [];
    assert Scan(blanks[..1]) == ([], 0) && Scan(blanks) == ([], 0);
    assert [] + [line] == [line];
  }

  /** The first event on `"\n\nab\n"`: one line delivered, offset 3. */
  lemma {:induction false} FirstModification(path: string, a: char, b: char)
    requires !Strings.IsSpace(a) && !Strings.IsSpace(b)
    ensures Modified(map[], FileModified(path), ['\n', '\n', a, b, '\n']) == ([[a, b]], map[path := 3])
  {
    var text := ['\n', '\n', a, b, '\n'];
    var line: string := [a, b, '\n'];
    var empty: map<string, nat> := map[];
    assert Start(empty, path, |text|) == 0;
    var scan := Scan(Lines(text, 0));
    assert scan == ([line], 3) by {
      LinesOfBlankThenText(text, a, b);
      ScanOfBlankThenText(a, b);
    }
    assert StripAll(scan.0) == [[a, b]] by {
      StripOfTextLine(line);
      assert line[..2] == [a, b];
      var e := StripAll([line]);
      assert e[0] == [a, b];
    }
    assert empty[path := 0 + scan.1] == map[path := 3];
  }

  lemma {:induction false} LinesOfTailThenText(grown: string, k: nat, b: char, z: char)
    requires |grown| == k + 4 && grown[k] == b && grown[k + 1] == '\n' && grown[k + 2] == z && grown[k + 3] == '\n'
    requires !IsBreak(b) && !IsBreak(z)
    ensures Lines(grown, k) == [[b, '\n'], [z, '\n']]
  {
    assert LineEnd(grown, k) == k + 2 && LineText(grown, k) == [b, '\n'] by {
      assert LineEnd(grown, k + 1) == k + 2 && LineText(grown, k + 1) == "\n";
    }
    assert LineEnd(grown, k + 2) == k + 4 && LineText(grown, k + 2) == [z, '\n'] by {
      assert LineEnd(grown, k + 3) == k + 4 && LineText(grown, k + 3) == "\n";
    }
    assert Lines(grown, k + 4) == [];
    assert Lines(grown, k + 2) == [[z, '\n']] + Lines(grown, k + 4);
    assert Lines(grown, k) == [[b, '\n']] + Lines(grown, k + 2);
  }

  /** The lines `"b\n"` and `"z\n"` are logged as `"b"` and `"z"`. */
  lemma {:induction false} StripOfCharLines(b: char, z: char)
    requires !Strings.IsSpace(b) && !Strings.IsSpace(z)
    ensures StripAll([[b, '\n'], [z, '\n']]) == [[b], [z]]
  {
    var one: string, two: string := [b, '\n'], [z, '\n'];
    StripOfTextLine(one);
    StripOfTextLine(two);
    assert one[..1] == [b] && two[..1] == [z];
  }

  /** An event on a file whose text from the recorded offset `k` on is `"b\nz\n"`. */
  lemma {:induction false} SecondModification(path: string, grown: string, k: nat, b: char, z: char)
    requires !Strings.IsSpace(b) && !Strings.IsSpace(z)
    requires |grown| == k + 4 && grown[k] == b && grown[k + 1] == '\n' && grown[k + 2] == z && grown[k + 3] == '\n'
    ensures Modified(map[path := k], FileModified(path), grown).0 == [[b], [z]]
  {
    assert Start(map[path := k], path, |grown|) == k;
    var lines: seq<string> := [[b, '\n'], [z, '\n']];
    assert Scan(Lines(grown, k)).0 == lines by {
      LinesOfTailThenText(grown, k, b, z);
      assert !Strings.IsSpace(lines[0][0]) && !Strings.IsSpace(lines[1][0]);
      ScanOfDelivered(lines);
    }
    StripOfCharLines(b, z);
  }

  /**
   * A run of lines in which a blank line precedes a delivered one leaves the
   * offset inside the delivered line: after `"\n\nab\n"` the offset is 3,
   * and once `"z\n"` is appended the next event delivers `"b"` (the tail of
   * the line already delivered) and then `"z"`; any three non-whitespace
   * characters and any path do.
   */
  lemma {:induction false} BlankLineReplays(path: string, a: char, b: char, z: char)
    requires !Strings.IsSpace(a) && !Strings.IsSpace(b) && !Strings.IsSpace(z)
    ensures var text := ['\n', '\n', a, b, '\n'];
            var first := Modified(map[], FileModified(path), text);
            var second := Modified(first.1, FileModified(path), text + [z, '\n']);
            first == ([[a, b]], map[path := 3]) && second.0 == [[b], [z]]
  {
    var text := ['\n', '\n', a, b, '\n'];
    FirstModification(path, a, b);
    var grown := text + [z, '\n'];
    SecondModification(path, grown, 3, b, z);
  }

  lemma {:induction false} LinesOfCrLfText(text: string, a: char, b: char, c: char, d: char)
    requires text == [a, '\r', '\n', b, '\r', '\n', c, d, '\n']
    requires !IsBreak(a) && !IsBreak(b) && !IsBreak(c) && !IsBreak(d)
    ensures Lines(text, 0) == [[a, '\n'], [b, '\n'], [c, d, '\n']]
  {
    assert LineEnd(text, 0) == 3 && LineText(text, 0) == [a, '\n'] by {
      assert LineEnd(text, 1) == 3 && LineText(text, 1) == "\n";
    }
    assert LineEnd(text, 3) == 6 && LineText(text, 3) == [b, '\n'] by {
      assert LineEnd(text, 4) == 6 && LineText(text, 4) == "\n";
    }
    assert LineEnd(text, 6) == 9 && LineText(text, 6) == [c, d, '\n'] by {
      assert LineEnd(text, 8) == 9 && LineText(text, 8) == "\n";
      assert LineEnd(text, 7) == 9 && LineText(text, 7) == [d, '\n'];
    }
    assert Lines(text, 9) == [];
    assert Lines(text, 6) == [[c, d, '\n']] + Lines(text, 9);
    assert Lines(text, 3) == [[b, '\n']] + Lines(text, 6);
    assert Lines(text, 0) == [[a, '\n']] + Lines(text, 3);
  }

  /** Three terminated lines of lengths 2, 2 and 3 whose text starts with no whitespace are all delivered, consuming 7. */
  lemma {:induction false} ScanOfThreeLines(lines: seq<string>)
    requires |lines| == 3 && |lines[0]| == 2 && |lines[1]| == 2 && |lines[2]| == 3
    requires forall k :: 0 <= k < 3 ==> Terminated(lines[k]) && !Strings.IsSpace(lines[k][0])
    ensures Scan(lines) == (lines, 7)
  {
    assert forall k :: 0 <= k < 3 ==> Delivered(lines[k]);
    ScanOfDelivered(lines);
    var two, one := lines[..2], lines[..1];
    assert two[..1] == one && one[..0] == [];
    assert Consumed(one) == 2;
    assert Consumed(two) == 4;
  }

  /** The lines `"a\n"`, `"b\n"` and `"cd\n"` are logged as `"a"`, `"b"` and `"cd"`. */
  lemma {:induction false} StripOfThreeLines(a: char, b: char, c: char, d: char)
    requires !Strings.IsSpace(a) && !Strings.IsSpace(b) && !Strings.IsSpace(c) && !Strings.IsSpace(d)
    ensures StripAll([[a, '\n'], [b, '\n'], [c, d, '\n']]) == [[a], [b], [c, d]]
  {
    var one: string, two: string, three: string := [a, '\n'], [b, '\n'], [c, d, '\n'];
    StripOfTextLine(one);
    StripOfTextLine(two);
    StripOfTextLine(three);
    assert one[..1] == [a] && two[..1] == [b] && three[..2] == [c, d];
  }

  /** The first event on `"a\r\nb\r\ncd\n"`: three lines delivered, offset 7 in a file of 9 characters. */
  lemma {:induction false} FirstCrLfModification(path: string, a: char, b: char, c: char, d: char)
    requires !Strings.IsSpace(a) && !Strings.IsSpace(b) && !Strings.IsSpace(c) && !Strings.IsSpace(d)
    ensures Modified(map[], FileModified(path), [a, '\r', '\n', b, '\r', '\n', c, d, '\n'])
         == ([[a], [b], [c, d]], map[path := 7])
  {
    var text := [a, '\r', '\n', b, '\r', '\n', c, d, '\n'];
    var one: string, two: string, three: string := [a, '\n'], [b, '\n'], [c, d, '\n'];
    var lines: seq<string> := [one, two, three];
    var empty: map<string, nat> := map[];
    assert Start(empty, path, |text|) == 0;
    assert Scan(Lines(text, 0)) == (lines, 7) by {
      LinesOfCrLfText(text, a, b, c, d);
      ScanOfThreeLines(lines);
    }
    StripOfThreeLines(a, b, c, d);
    assert empty[path := 0 + 7] == map[path := 7];
  }

  /**
   * The offset counts translated characters but `fp.seek` takes file
   * offsets: after `"a\r\nb\r\ncd\n"` the offset is 7, two short of the
   * end, and once `"z\n"` is appended the next event delivers `"d"` (the
   * tail of the line already delivered) and then `"z"`; any five
   * non-whitespace characters and any path do.
   */
  lemma {:induction false} CrLfReplays(path: string, a: char, b: char, c: char, d: char, z: char)
    requires !Strings.IsSpace(a) && !Strings.IsSpace(b) && !Strings.IsSpace(c) && !Strings.IsSpace(d)
    requires !Strings.IsSpace(z)
    ensures var text := [a, '\r', '\n', b, '\r', '\n', c, d, '\n'];
            var first := Modified(map[], FileModified(path), text);
            var second := Modified(first.1, FileModified(path), text + [z, '\n']);
            first == ([[a], [b], [c, d]], map[path := 7]) && second.0 == [[d], [z]]
  {
    var text := [a, '\r', '\n', b, '\r', '\n', c, d, '\n'];
    FirstCrLfModification(path, a, b, c, d);
    var grown := text + [z, '\n'];
    SecondModification(path, grown, 7, d, z);
  }

  // ---------------------------------------------------------------------------
  // The offset the loop evidently means to keep
  // ---------------------------------------------------------------------------

  /**
   * `on_modified` with the offset set to the file offset just past the last
   * whole line read (`fp.tell()`), blank or not; the delivered lines are the
   * same as in `Modified`.
   */
  function ModifiedCorrected(observed: map<string, nat>, event: Event, content: string): (seq<string>, map<string, nat>) {
    match event
    case OtherEvent(_) => ([], observed)
    case FileModified(path) =>
      var start := Start(observed, path, |content|);
      if start >= |content| then ([], observed)
      else (StripAll(Scan(Lines(content, start)).0), observed[path := WholeEnd(content, start)])
  }

  /** The corrected event on a file whose offset is inside it, given what reading from the offset yields. */
  lemma {:induction false} CorrectedFrom(observed: map<string, nat>, path: string, content: string, s: nat, x: seq<string>, end: nat)
    requires Start(observed, path, |content|) == s < |content|
    requires Scan(Lines(content, s)).0 == x && WholeEnd(content, s) == end
    ensures ModifiedCorrected(observed, FileModified(path), content) == (StripAll(x), observed[path := end])
  {
  }

  /** The two reads of `CorrectedDeliversOnce` when the first one finds nothing past the offset. */
  lemma {:induction false} CorrectedNothingFirst(observed: map<string, nat>, path: string, first: string, more: string)
    requires Start(observed, path, |first|) >= |first|
    ensures var one := ModifiedCorrected(observed, FileModified(path), first);
            var two := ModifiedCorrected(one.1, FileModified(path), first + more);
            var whole := ModifiedCorrected(observed, FileModified(path), first + more);
            one.0 + two.0 == whole.0 && two.1 == whole.1
  {
    assert ModifiedCorrected(observed, FileModified(path), first) == ([], observed);
    var whole := ModifiedCorrected(observed, FileModified(path), first + more);
    assert [] + whole.0 == whole.0;
  }

  /** An offset inside the file stays where it is when the file grows. */
  lemma {:induction false} StartGrows(observed: map<string, nat>, path: string, n: nat, m: nat)
    requires Start(observed, path, n) < n <= m
    ensures Start(observed, path, m) == Start(observed, path, n)
  {
  }

  /** The second read, from the end of the first text's whole lines on, and its offset. */
  lemma {:induction false} CorrectedSecond(o1: map<string, nat>, path: string, all: string, w: nat)
    requires Start(o1, path, |all|) == w <= |all| && path in o1 && o1[path] == w
    ensures ModifiedCorrected(o1, FileModified(path), all)
         == (StripAll(Scan(Lines(all, w)).0), o1[path := WholeEnd(all, w)])
  {
    if w < |all| {
      CorrectedFrom(o1, path, all, w, Scan(Lines(all, w)).0, WholeEnd(all, w));
    } else {
      assert Lines(all, w) == [] && WholeEnd(all, w) == w;
      assert o1[path := w] == o1;
    }
  }

  /**
   * The three reads of `CorrectedDeliversOnce` when the first one reads from
   * inside the first text, in terms of what each delivers and where it leaves
   * the offset.
   */
  lemma {:induction false} CorrectedReads(observed: map<string, nat>, path: string, first: string, more: string)
    returns (a: seq<string>, r: seq<string>, w: nat, e: nat)
    requires Start(observed, path, |first|) < |first|
    ensures ModifiedCorrected(observed, FileModified(path), first) == (StripAll(a), observed[path := w])
    ensures ModifiedCorrected(observed[path := w], FileModified(path), first + more)
         == (StripAll(r), observed[path := w][path := e])
    ensures ModifiedCorrected(observed, FileModified(path), first + more) == (StripAll(a + r), observed[path := e])
  {
    var s := Start(observed, path, |first|);
    var all := first + more;
    w := WholeEnd(first, s);
    a := Scan(Lines(first, s)).0;
    ResumeFrom(first, more, s);
    r := Scan(Lines(all, w)).0;
    e := WholeEnd(all, w);
    CorrectedFrom(observed, path, first, s, a, w);
    StartGrows(observed, path, |first|, |all|);
    CorrectedFrom(observed, path, all, s, a + r, e);
    var o1 := observed[path := w];
    assert Start(o1, path, |all|) == w;
    CorrectedSecond(o1, path, all, w);
  }

  /** The two reads of `CorrectedDeliversOnce` when the first one reads from inside the first text. */
  lemma {:induction false} CorrectedSomethingFirst(observed: map<string, nat>, path: string, first: string, more: string)
    requires Start(observed, path, |first|) < |first|
    ensures var one := ModifiedCorrected(observed, FileModified(path), first);
            var two := ModifiedCorrected(one.1, FileModified(path), first + more);
            var whole := ModifiedCorrected(observed, FileModified(path), first + more);
            one.0 + two.0 == whole.0 && two.1 == whole.1
  {
    var a, r, w, e := CorrectedReads(observed, path, first, more);
    StripAllAppend(a, r);
    assert observed[path := w][path := e] == observed[path := e];
  }

  /**
   * With the corrected offset, every delivered line is delivered once:
   * reading a file, then reading it again after text is appended, logs the
   * same lines and leaves the same offset as reading the final file in one go.
   */
  lemma {:induction false} CorrectedDeliversOnce(observed: map<string, nat>, path: string, first: string, more: string)
    ensures var one := ModifiedCorrected(observed, FileModified(path), first);
            var two := ModifiedCorrected(one.1, FileModified(path), first + more);
            var whole := ModifiedCorrected(observed, FileModified(path), first + more);
            one.0 + two.0 == whole.0 && two.1 == whole.1
  {
    if Start(observed, path, |first|) >= |first| {
      CorrectedNothingFirst(observed, path, first, more);
    } else {
      CorrectedSomethingFirst(observed, path, first, more);
    }
  }

  // ---------------------------------------------------------------------------
  // read_initial_size
  // ---------------------------------------------------------------------------

  /** `self.observed[path] = os.path.getsize(path)` for every matching file `os.walk` yields, in order. */
  function RecordSizes(observed: map<string, nat>, files: seq<(string, nat)>, matches: string -> bool): map<string, nat> {
    if files == [] then observed
    else
      var prev, (path, size) := RecordSizes(observed, files[..|files| - 1], matches), files[|files| - 1];
      if matches(path) then prev[path := size] else prev
  }

  /** `path` is one of the matching files walked. */
  predicate Listed(files: seq<(string, nat)>, matches: string -> bool, path: string) {
    exists i :: 0 <= i < |files| && files[i].0 == path && matches(path)
  }

  /**
   * After the walk, every matching file has its size recorded, and every
   * other path keeps its entry (or its absence).
   */
  lemma {:induction false} RecordSizesSpec(observed: map<string, nat>, files: seq<(string, nat)>, matches: string -> bool)
    requires forall i, j :: 0 <= i < j < |files| ==> files[i].0 != files[j].0
    ensures var r := RecordSizes(observed, files, matches);
            (forall i :: 0 <= i < |files| && matches(files[i].0) ==> files[i].0 in r && r[files[i].0] == files[i].1)
            && (forall p :: !Listed(files, matches, p) ==> (p in r <==> p in observed) && (p in r ==> r[p] == observed[p]))
  {
    if files != [] {
      var prev := files[..|files| - 1];
      ghost var last := files[|files| - 1];
      RecordSizesSpec(observed, prev, matches);
      forall i | 0 <= i < |prev| ensures prev[i] == files[i] && prev[i].0 != last.0 {
      }
    }
  }

  // ---------------------------------------------------------------------------
  // The handler
  // ---------------------------------------------------------------------------

  class WatcherHandler {
    /** `match_file`: the watchdog patterns the handler was created with. */
    const matches: string -> bool
    /** How far each file has been delivered. */
    var observed: map<string, nat>

    constructor (matches: string -> bool)
      ensures this.matches == matches && observed == map[]
    {
      this.matches := matches;
      observed := map[];
    }

    /**
     * `read_initial_size(path)`: record the current size of a matching file,
     * or of every matching file under a directory, so that what is already
     * there is never delivered.
     */
    method ReadInitialSize(path: string, entry: PathEntry)
      modifies this
      ensures entry.File? ==> observed == if matches(path) then old(observed)[path := entry.size] else old(observed)
      ensures entry.Directory? ==> observed == RecordSizes(old(observed), entry.files, matches)
    {
      if entry.File? {
        if matches(path) {
          observed := observed[path := entry.size];
        }
        return;
      }
      var files := entry.files;
      for i := 0 to |files|
        invariant observed == RecordSizes(old(observed), files[..i], matches)
      {
        var (file, size) := files[i];
        assert files[..i + 1][..i] == files[..i];
        if matches(file) {
          observed := observed[file := size];
        }
      }
      assert files[..|files|] == files;
    }

    /**
     * `on_modified(event)`: read the modified file from its offset and log
     * each delivered line, stripped, in file order; the offset advances by
     * the length of each delivered line.  Returns the lines logged.
     */
    method OnModified(event: Event, content: string) returns (emitted: seq<string>)
      modifies this
      ensures (emitted, observed) == Modified(old(observed), event, content)
    {
      if event.OtherEvent? {
        return [];
      }
      var path := event.srcPath;
      var size := |content|;
      var recorded := if path in observed then observed[path] else 0;
      var current := if recorded < size then recorded else size;
      if current >= size {
        return [];
      }
      assert current == Start(observed, path, |content|);
      emitted, current := LogLines(Lines(content, current), current);
      observed := observed[path := current];
    }
  }

  /** One turn of the loop of `on_modified`: logging a delivered line keeps what was logged and the offset in step with `Scan`. */
  lemma {:induction false} LogStep(lines: seq<string>, i: nat, start: nat, emitted: seq<string>, current: nat)
    requires i < |lines|
    requires emitted == StripAll(Scan(lines[..i]).0) && current == start + Scan(lines[..i]).1
    ensures var line := lines[i];
            var (e, c) := if Terminated(line) && Strings.Strip(line) != [] then (emitted + [Strings.Strip(line)], current + |line|)
                          else (emitted, current);
            e == StripAll(Scan(lines[..i + 1]).0) && c == start + Scan(lines[..i + 1]).1
  {
    var line := lines[i];
    ScanStep(lines, i);
    if Delivered(line) {
      StripAllAppend(Scan(lines[..i]).0, [line]);
    }
  }

  /**
   * The `for line in fp:` loop of `on_modified`: each terminated, non-blank
   * line is logged stripped and `current` advances over it.
   */
  method LogLines(lines: seq<string>, start: nat) returns (emitted: seq<string>, current: nat)
    ensures emitted == StripAll(Scan(lines).0) && current == start + Scan(lines).1
  {
    current := start;
    emitted := [];
    for i := 0 to |lines|
      invariant emitted == StripAll(Scan(lines[..i]).0) && current == start + Scan(lines[..i]).1
    {
      var line := lines[i];
      var stripped := Strings.Strip(line);
      LogStep(lines, i, start, emitted, current);
      if Terminated(line) && stripped != [] {
        current := current + |line|;
        emitted := emitted + [stripped];
      }
    }
    assert lines[..|lines|] == lines;
  }
}
