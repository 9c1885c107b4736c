/** A log file with a bounded ring of older files (src/common/src/common/ring_file.cpp). */
module RingFile {
  import opened Decimal

  type Bytes = string

  type Files = map<string, Bytes>

  const MB_TO_BYTES: int := 1024 * 1024

  datatype Config = Config(
    directory: string, baseName: string, extension: string,
    maxFiles: nat, maxSizeMB: nat, append: bool, ignoreZeroIndex: bool)

  /** At least one file, a dot before the extension, and a directory. */
  function Normalized(c: Config): (r: Config)
    ensures r.maxFiles >= 1
  {
    c.(maxFiles := if c.maxFiles == 0 then 1 else c.maxFiles,
       extension := if c.extension != "" && c.extension[0] != '.' then "." + c.extension else c.extension,
       directory := if c.directory == "" then "." else c.directory)
  }

  /** A configuration that needs no adjustment. */
  predicate Normal(c: Config) {
    && c.maxFiles >= 1 && c.directory != ""
    && (c.extension == "" || c.extension[0] == '.')
  }

  /**
   * The adjusted configuration is normal, a normal one is left alone, and only what is missing is
   * added: one file, the current directory, a dot before the extension.
   */
  lemma NormalizedMeans(c: Config)
    ensures Normal(Normalized(c)) && (Normalized(c) == c <==> Normal(c))
    ensures var n := Normalized(c);
      && n.maxFiles <= c.maxFiles + 1 && (c.maxFiles > 0 ==> n.maxFiles == c.maxFiles)
      && n.directory in {c.directory, "."} && n.extension in {c.extension, "." + c.extension}
      && (c.directory != "" ==> n.directory == c.directory) && (c.extension == "" ==> n.extension == "")
      && n == c.(maxFiles := n.maxFiles, directory := n.directory, extension := n.extension)
  {
    var ext := "." + c.extension;
    assert ext[0] == '.';
  }

  // ------------------------------------------------------------------------ paths

  /** How many digits the ring's indices are padded to. */
  function IndexDigits(c: Config): nat {
    if c.maxFiles > 1 then |Digits(c.maxFiles - 1)| else 1
  }

  function FileName(c: Config, index: nat): string {
    if c.ignoreZeroIndex && index == 0 then c.baseName + c.extension
    else c.baseName + "_" + Padded(index, IndexDigits(c)) + c.extension
  }

  function PathForIndex(c: Config, index: nat): string {
    c.directory + "/" + FileName(c, index)
  }

  lemma IndexFits(c: Config, i: nat)
    requires i < c.maxFiles
    ensures |Padded(i, IndexDigits(c))| == IndexDigits(c)
  {
    if c.maxFiles > 1 {
      DigitsLength(c.maxFiles - 1, IndexDigits(c));
      DigitsLength(i, IndexDigits(c));
    } else {
      assert i == 0;
    }
  }

  lemma SameMiddle(a: string, x: string, y: string, b: string)
    requires a + x + b == a + y + b && |x| == |y|
    ensures x == y
  {
    assert (a + x + b)[|a|..|a| + |x|] == x;
    assert (a + y + b)[|a|..|a| + |y|] == y;
  }

  lemma SameTail(a: string, x: string, y: string)
    requires a + x == a + y
    ensures x == y
  {
    assert (a + x)[|a|..] == x && (a + y)[|a|..] == y;
  }

  /** Two indices of the ring share a path only if they are equal. */
  lemma PathsDistinct(c: Config, i: nat, j: nat)
    requires i < c.maxFiles && j < c.maxFiles && PathForIndex(c, i) == PathForIndex(c, j)
    ensures i == j
  {
    SameTail(c.directory + "/", FileName(c, i), FileName(c, j));
    IndexFits(c, i);
    IndexFits(c, j);
    if !(c.ignoreZeroIndex && (i == 0 || j == 0)) {
      SameMiddle(c.baseName + "_", Padded(i, IndexDigits(c)), Padded(j, IndexDigits(c)), c.extension);
      PaddedInjective(i, j, IndexDigits(c));
    } else {
      assert |FileName(c, 0)| == |c.baseName| + |c.extension|;
    }
  }

  /**
   * A path is directory, base name, index and extension. The index is an underscore and a decimal
   * numeral of the number, as wide as the largest index of the ring; it is left out for file 0 if the
   * configuration says so.
   */
  lemma PathReads(c: Config, i: nat) returns (index: string)
    requires i < c.maxFiles
    ensures PathForIndex(c, i) == c.directory + "/" + c.baseName + index + c.extension
    ensures index == "" <==> c.ignoreZeroIndex && i == 0
    ensures index != "" ==>
      && index[0] == '_' && AllDigits(index[1..]) && Value(index[1..]) == i
      && |index[1..]| == |Digits(c.maxFiles - 1)|
  {
    var numeral := Padded(i, IndexDigits(c));
    index := if c.ignoreZeroIndex && i == 0 then "" else "_" + numeral;
    IndexFits(c, i);
    ValueOfPadded(i, IndexDigits(c));
    assert index != "" ==> index[1..] == numeral;
    NameJoins(c.directory + "/", c.baseName, index, c.extension);
    assert index != "" ==> c.baseName + index == c.baseName + "_" + numeral;
    assert index == "" ==> c.baseName + index == c.baseName;
  }

  lemma NameJoins(directory: string, base: string, index: string, extension: string)
    ensures directory + (base + index + extension) == directory + base + index + extension
  {
  }

  /** The paths of the ring, newest file first. */
  function Paths(c: Config): (ps: seq<string>)
    ensures |ps| == c.maxFiles && forall k :: 0 <= k < c.maxFiles ==> ps[k] == PathForIndex(c, k)
  {
    seq(c.maxFiles, k requires 0 <= k < c.maxFiles => PathForIndex(c, k))
  }

  predicate Distinct(ps: seq<string>) {
    forall j, k :: 0 <= j < k < |ps| ==> ps[j] != ps[k]
  }

  /** Zero padding keeps the paths of a ring apart, whatever its size. */
  lemma RingPathsDistinct(c: Config)
    ensures Distinct(Paths(c))
  {
    forall j, k | 0 <= j < k < c.maxFiles
      ensures Paths(c)[j] != Paths(c)[k]
    {
      if PathForIndex(c, j) == PathForIndex(c, k) {
        PathsDistinct(c, j, k);
      }
    }
  }

  // ------------------------------------------------------------------------ rotation

  /** Replace the file at dst by the one at src, if there is one. */
  function Move(files: Files, src: string, dst: string): Files {
    var cleared := files - {dst};
    if src in cleared then cleared[dst := cleared[src]] - {src} else cleared
  }

  /** The shifts from index i down to index 1. */
  function ShiftFrom(files: Files, ps: seq<string>, i: nat): Files
    requires i < |ps|
    decreases i
  {
    if i == 0 then files else ShiftFrom(Move(files, ps[i - 1], ps[i]), ps, i - 1)
  }

  function Rotated(files: Files, ps: seq<string>): Files
    requires |ps| >= 1
  {
    if |ps| > 1 then ShiftFrom(files, ps, |ps| - 1) else files - {ps[0]}
  }

  /** The same file, or none, in both places. */
  predicate SameFile(a: Files, p: string, b: Files, q: string) {
    if p in a then q in b && a[p] == b[q] else q !in b
  }

  /** Files 1 to i hold what files 0 to i - 1 held, and file 0 is gone. */
  predicate MovedUp(before: Files, after: Files, ps: seq<string>, i: nat)
    requires i < |ps|
  {
    && (forall k :: 0 <= k < i ==> SameFile(after, ps[k + 1], before, ps[k]))
    && ps[0] !in after
  }

  /** Files whose path is not among the first n of the ring are as before. */
  ghost predicate OthersSame(before: Files, after: Files, ps: seq<string>, n: nat)
    requires n <= |ps|
  {
    forall p :: p !in ps[..n] ==> SameFile(after, p, before, p)
  }

  lemma {:induction false} ShiftMovesUp(files: Files, ps: seq<string>, i: nat)
    requires Distinct(ps) && 0 < i < |ps|
    ensures MovedUp(files, ShiftFrom(files, ps, i), ps, i)
    ensures OthersSame(files, ShiftFrom(files, ps, i), ps, i + 1)
    decreases i
  {
    var moved := Move(files, ps[i - 1], ps[i]);
    var after := ShiftFrom(files, ps, i);
    assert ps[..i + 1] == ps[..i] + [ps[i]];
    assert ps[..i][i - 1] == ps[i - 1];
    if i > 1 {
      ShiftMovesUp(moved, ps, i - 1);
      assert SameFile(after, ps[i], moved, ps[i]);
      forall k | 0 <= k < i - 1
        ensures SameFile(after, ps[k + 1], files, ps[k])
      {
        assert SameFile(after, ps[k + 1], moved, ps[k]);
      }
    }
    forall p | p !in ps[..i + 1]
      ensures SameFile(after, p, files, p)
    {
      assert p !in ps[..i] && p != ps[i] && p != ps[i - 1];
      if i > 1 {
        assert OthersSame(moved, after, ps, i);
      } else {
        assert after == ShiftFrom(moved, ps, 0) == moved;
      }
    }
  }

  /** Rotation moves every file one place up, drops the oldest, and touches nothing else. */
  lemma RotationMovesUp(files: Files, ps: seq<string>)
    requires Distinct(ps) && |ps| >= 1
    ensures MovedUp(files, Rotated(files, ps), ps, |ps| - 1)
    ensures OthersSame(files, Rotated(files, ps), ps, |ps|)
  {
    if |ps| > 1 {
      ShiftMovesUp(files, ps, |ps| - 1);
    } else {
      assert ps[..1] == [ps[0]];
    }
  }

  // ------------------------------------------------------------------------ the ring's contents

  function Content(files: Files, p: string): Bytes {
    if p in files then files[p] else ""
  }

  /** The first n files of the ring, oldest first. */
  function RingBytes(files: Files, ps: seq<string>, n: nat): Bytes
    requires n <= |ps|
  {
    if n == 0 then "" else Content(files, ps[n - 1]) + RingBytes(files, ps, n - 1)
  }

  predicate IsSuffix(a: Bytes, b: Bytes) {
    |a| <= |b| && b[|b| - |a|..] == a
  }

  lemma SuffixAppend(a: Bytes, b: Bytes, t: Bytes)
    requires IsSuffix(a, b)
    ensures IsSuffix(a + t, b + t)
  {
    var k := |b| - |a|;
    assert b == b[..k] + a;
    assert b + t == b[..k] + (a + t);
  }

  /** Equal files in shifted places give equal contents. */
  lemma {:induction false} MovedUpBytes(before: Files, after: Files, ps: seq<string>, i: nat, n: nat)
    requires i < |ps| && MovedUp(before, after, ps, i) && n <= i
    ensures RingBytes(after, ps, n + 1) == RingBytes(before, ps, n)
    decreases n
  {
    if n == 0 {
      assert RingBytes(after, ps, 1) == Content(after, ps[0]) + RingBytes(after, ps, 0);
    } else {
      MovedUpBytes(before, after, ps, i, n - 1);
      assert SameFile(after, ps[n - 1 + 1], before, ps[n - 1]);
    }
  }

  /** After a rotation the ring holds what it held, without its oldest file. */
  lemma RotationDropsOldest(files: Files, ps: seq<string>)
    requires Distinct(ps) && |ps| >= 1
    ensures RingBytes(Rotated(files, ps), ps, |ps|) == RingBytes(files, ps, |ps| - 1)
    ensures IsSuffix(RingBytes(Rotated(files, ps), ps, |ps|), RingBytes(files, ps, |ps|))
  {
    RotationMovesUp(files, ps);
    MovedUpBytes(files, Rotated(files, ps), ps, |ps| - 1, |ps| - 1);
  }

  /** Changing file 0 from a content to a longer one lengthens the ring's bytes at their end. */
  lemma {:induction false} NewestGrows(files: Files, ps: seq<string>, text: Bytes, n: nat)
    requires Distinct(ps) && 1 <= n <= |ps|
    ensures RingBytes(files[ps[0] := Content(files, ps[0]) + text], ps, n) == RingBytes(files, ps, n) + text
    decreases n
  {
    var files' := files[ps[0] := Content(files, ps[0]) + text];
    if n > 1 {
      NewestGrows(files, ps, text, n - 1);
    } else {
      assert RingBytes(files', ps, 0) == "" && RingBytes(files, ps, 0) == "";
    }
  }

  // ------------------------------------------------------------------------ the writer

  /** The writer's state: the files, whether its stream is open, and its size accounting. */
  datatype Writer = Writer(files: Files, isOpen: bool, initialFileSize: nat, bytesWritten: nat)

  /** Open file 0, appending to it or starting it afresh. */
  function OpenCurrent(c: Config, w: Writer): Writer
    requires c.maxFiles >= 1
  {
    var path := PathForIndex(c, 0);
    var start := if c.append then Content(w.files, path) else "";
    Writer(w.files[path := start], true, |start|, 0)
  }

  predicate WouldExceed(c: Config, w: Writer, additional: nat) {
    c.maxSizeMB != 0 && w.initialFileSize + w.bytesWritten + additional > c.maxSizeMB * MB_TO_BYTES
  }

  /** The writer a write starts from: reopened if it was closed. */
  function Opened(c: Config, w: Writer): Writer
    requires c.maxFiles >= 1
  {
    if w.isOpen then w else OpenCurrent(c, w)
  }

  /** The writer ready to take `additional` bytes: reopened if need be, rotated if they would not fit. */
  function Ready(c: Config, w: Writer, additional: nat): Writer
    requires c.maxFiles >= 1
  {
    var open := Opened(c, w);
    if WouldExceed(c, open, additional)
    then OpenCurrent(c, open.(files := Rotated(open.files, Paths(c)), isOpen := false))
    else open
  }

  /** Write a text to the current file. */
  function Written(c: Config, w: Writer, text: Bytes): Writer
    requires c.maxFiles >= 1
  {
    var ready := Ready(c, w, |text|);
    var path := PathForIndex(c, 0);
    ready.(files := ready.files[path := Content(ready.files, path) + text],
           bytesWritten := ready.bytesWritten + |text|)
  }

  /** While the stream is open, the accounting is the real size of the current file. */
  predicate Accurate(c: Config, w: Writer) {
    w.isOpen ==>
      && PathForIndex(c, 0) in w.files
      && w.initialFileSize + w.bytesWritten == |w.files[PathForIndex(c, 0)]|
  }

  lemma WriteKeepsAccurate(c: Config, w: Writer, text: Bytes)
    requires c.maxFiles >= 1 && Accurate(c, w)
    ensures Accurate(c, Written(c, w, text)) && Written(c, w, text).isOpen
  {
  }

  /** What file 0 holds when a write comes to it: reopening a closed file may empty it. */
  function CurrentBytes(c: Config, w: Writer): Bytes {
    if w.isOpen || c.append then Content(w.files, PathForIndex(c, 0)) else ""
  }

  /** The files as a write finds them. */
  function FoundFiles(c: Config, w: Writer): Files {
    w.files[PathForIndex(c, 0) := CurrentBytes(c, w)]
  }

  lemma OpenedFinds(c: Config, w: Writer)
    requires c.maxFiles >= 1 && Accurate(c, w)
    ensures Opened(c, w).files == FoundFiles(c, w)
    ensures Opened(c, w).initialFileSize + Opened(c, w).bytesWritten == |CurrentBytes(c, w)|
  {
  }

  /** Every file is one place further up, file 0 is as given, and no other path is touched. */
  ghost predicate RotatedOnto(before: Files, after: Files, ps: seq<string>, newest: Bytes)
    requires |ps| >= 1
  {
    && (forall k :: 0 <= k < |ps| - 1 ==> SameFile(after, ps[k + 1], before, ps[k]))
    && ps[0] in after && after[ps[0]] == newest
    && (forall p :: p !in ps ==> SameFile(after, p, before, p))
  }

  lemma RotationThenText(before: Files, ps: seq<string>, text: Bytes)
    requires Distinct(ps) && |ps| >= 1
    ensures ps[0] !in Rotated(before, ps)
    ensures RotatedOnto(before, Rotated(before, ps)[ps[0] := text], ps, text)
  {
    var rotated := Rotated(before, ps);
    var after := rotated[ps[0] := text];
    RotationMovesUp(before, ps);
    assert ps[..|ps|] == ps;
    forall k | 0 <= k < |ps| - 1
      ensures SameFile(after, ps[k + 1], before, ps[k])
    {
      assert SameFile(rotated, ps[k + 1], before, ps[k]);
    }
    forall p | p !in ps
      ensures SameFile(after, p, before, p)
    {
      assert SameFile(rotated, p, before, p);
    }
  }

  lemma ExceedingWrite(c: Config, w: Writer, text: Bytes)
    requires c.maxFiles >= 1 && Accurate(c, w) && WouldExceed(c, Opened(c, w), |text|)
    ensures RotatedOnto(FoundFiles(c, w), Written(c, w, text).files, Paths(c), text)
  {
    var ps := Paths(c);
    RingPathsDistinct(c);
    OpenedFinds(c, w);
    RotationThenText(FoundFiles(c, w), ps, text);
    ExceedingIs(c, w, text, Rotated(FoundFiles(c, w), ps), ps[0]);
  }

  lemma StartedAfresh(c: Config, w: Writer, path: string, text: Bytes)
    requires c.maxFiles >= 1 && path == PathForIndex(c, 0) && path !in w.files
    ensures var open := OpenCurrent(c, w);
      open.files[path := Content(open.files, path) + text] == w.files[path := text]
  {
    assert "" + text == text;
  }

  lemma ExceedingIs(c: Config, w: Writer, text: Bytes, rotated: Files, path: string)
    requires c.maxFiles >= 1 && WouldExceed(c, Opened(c, w), |text|)
    requires rotated == Rotated(Opened(c, w).files, Paths(c)) && path == PathForIndex(c, 0) && path !in rotated
    ensures Written(c, w, text).files == rotated[path := text]
  {
    StartedAfresh(c, Opened(c, w).(files := rotated, isOpen := false), path, text);
  }

  /**
   * What a write does to the files. If the text fits into the limit, or there is no limit, it is put
   * behind what file 0 holds and nothing else changes; if not, every file moves up one place and the
   * text alone makes the new file 0.
   */
  lemma WriteRotatesExactlyWhen(c: Config, w: Writer, text: Bytes)
    requires c.maxFiles >= 1 && Accurate(c, w)
    ensures var fits := c.maxSizeMB == 0 || |CurrentBytes(c, w)| + |text| <= c.maxSizeMB * 1_048_576;
      if fits then Written(c, w, text).files == w.files[PathForIndex(c, 0) := CurrentBytes(c, w) + text]
      else RotatedOnto(FoundFiles(c, w), Written(c, w, text).files, Paths(c), text)
  {
    OpenedFinds(c, w);
    if WouldExceed(c, Opened(c, w), |text|) {
      ExceedingWrite(c, w, text);
    }
  }

  /** Every file of the ring is within the limit, or holds exactly one of the given texts. */
  ghost predicate WithinLimitOr(c: Config, files: Files, texts: set<Bytes>) {
    forall k :: 0 <= k < c.maxFiles && Paths(c)[k] in files ==>
      |files[Paths(c)[k]]| <= c.maxSizeMB * 1_048_576 || files[Paths(c)[k]] in texts
  }

  lemma RotatingKeepsWithinLimit(c: Config, before: Files, after: Files, newest: Bytes, texts: set<Bytes>)
    requires c.maxFiles >= 1 && WithinLimitOr(c, before, texts)
    requires RotatedOnto(before, after, Paths(c), newest)
    ensures WithinLimitOr(c, after, texts + {newest})
  {
    var ps := Paths(c);
    forall k | 0 <= k < c.maxFiles && ps[k] in after
      ensures |after[ps[k]]| <= c.maxSizeMB * 1_048_576 || after[ps[k]] in texts + {newest}
    {
      if k > 0 {
        assert SameFile(after, ps[k - 1 + 1], before, ps[k - 1]);
      }
    }
  }

  lemma WriteKeepsWithinLimit(c: Config, w: Writer, text: Bytes, texts: set<Bytes>)
    requires c.maxFiles >= 1 && c.maxSizeMB > 0 && Accurate(c, w) && WithinLimitOr(c, w.files, texts)
    ensures WithinLimitOr(c, Written(c, w, text).files, texts + {text})
  {
    var current, found, after := CurrentBytes(c, w), FoundFiles(c, w), Written(c, w, text).files;
    WriteRotatesExactlyWhen(c, w, text);
    if |current| + |text| <= c.maxSizeMB * 1_048_576 {
    } else {
      RotatingKeepsWithinLimit(c, found, after, text, texts);
    }
  }

  lemma ActKeepsWithinLimit(c: Config, w: Writer, a: Action, texts: set<Bytes>)
    requires c.maxFiles >= 1 && c.maxSizeMB > 0 && Accurate(c, w) && WithinLimitOr(c, w.files, texts)
    ensures WithinLimitOr(c, Act(c, w, a).files, texts + {BytesOf(a)})
  {
    if a.Write? || a.WriteLine? {
      WriteKeepsWithinLimit(c, w, BytesOf(a), texts);
    }
  }

  /** All texts that a run writes. */
  function TextsOf(actions: seq<Action>): set<Bytes> {
    set a | a in actions :: BytesOf(a)
  }

  function Ring(c: Config, w: Writer): Bytes {
    RingBytes(w.files, Paths(c), c.maxFiles)
  }

  lemma OpenKeepsRing(c: Config, w: Writer)
    requires c.maxFiles >= 1 && c.append
    ensures Ring(c, OpenCurrent(c, w)) == Ring(c, w)
  {
    RingPathsDistinct(c);
    NewestGrows(w.files, Paths(c), "", c.maxFiles);
    assert Content(w.files, PathForIndex(c, 0)) + "" == Content(w.files, PathForIndex(c, 0));
    assert Ring(c, w) + "" == Ring(c, w);
  }

  /** A write leaves a suffix of what the ring held, followed by the text. */
  lemma WriteKeepsSuffix(c: Config, w: Writer, text: Bytes)
    requires c.maxFiles >= 1 && c.append
    ensures IsSuffix(Ring(c, Written(c, w, text)), Ring(c, w) + text)
  {
    var ps := Paths(c);
    RingPathsDistinct(c);
    var open := Opened(c, w);
    OpenKeepsRing(c, w);
    var ready := Ready(c, w, |text|);
    if WouldExceed(c, open, |text|) {
      RotationDropsOldest(open.files, ps);
      OpenKeepsRing(c, open.(files := Rotated(open.files, ps), isOpen := false));
    }
    assert IsSuffix(Ring(c, ready), Ring(c, w));
    NewestGrows(ready.files, ps, text, c.maxFiles);
    SuffixAppend(Ring(c, ready), Ring(c, w), text);
  }

  /** What can be done with the writer between its construction and its destruction. */
  datatype Action = Write(text: Bytes) | WriteLine(line: Bytes) | Close | Flush

  function BytesOf(a: Action): Bytes {
    match a
    case Write(text) => text
    case WriteLine(line) => line + "\n"
    case Close => ""
    case Flush => ""
  }

  function Act(c: Config, w: Writer, a: Action): Writer
    requires c.maxFiles >= 1
  {
    match a
    case Write(_) => Written(c, w, BytesOf(a))
    case WriteLine(_) => Written(c, w, BytesOf(a))
    case Close => w.(isOpen := false)
    case Flush => w
  }

  function Run(c: Config, w: Writer, actions: seq<Action>): Writer
    requires c.maxFiles >= 1
    decreases actions
  {
    if actions == [] then w else Run(c, Act(c, w, actions[0]), actions[1..])
  }

  function AllBytes(actions: seq<Action>): Bytes {
    if actions == [] then "" else BytesOf(actions[0]) + AllBytes(actions[1..])
  }

  lemma ActKeepsSuffix(c: Config, w: Writer, a: Action)
    requires c.maxFiles >= 1 && c.append
    ensures IsSuffix(Ring(c, Act(c, w, a)), Ring(c, w) + BytesOf(a))
  {
    if a.Write? || a.WriteLine? {
      WriteKeepsSuffix(c, w, BytesOf(a));
    } else {
      assert Ring(c, w) + "" == Ring(c, w);
    }
  }

  lemma SuffixChain(ring: Bytes, first: Bytes, next: Bytes, rest: Bytes, last: Bytes)
    requires IsSuffix(next, ring + first) && IsSuffix(last, next + rest)
    ensures IsSuffix(last, ring + (first + rest))
  {
    SuffixAppend(next, ring + first, rest);
    assert ring + first + rest == ring + (first + rest);
  }

  /**
   * Over every run of writes, line writes and closings, the ring from its oldest file to its
   * current one is a suffix of what it held at first followed by everything written.
   */
  lemma {:induction false} RunKeepsSuffix(c: Config, w: Writer, actions: seq<Action>)
    requires c.maxFiles >= 1 && c.append
    ensures IsSuffix(Ring(c, Run(c, w, actions)), Ring(c, w) + AllBytes(actions))
    decreases actions
  {
    if actions == [] {
      assert Ring(c, w) + "" == Ring(c, w);
    } else {
      var next := Act(c, w, actions[0]);
      ActKeepsSuffix(c, w, actions[0]);
      RunKeepsSuffix(c, next, actions[1..]);
      SuffixChain(Ring(c, w), BytesOf(actions[0]), Ring(c, next), AllBytes(actions[1..]),
                  Ring(c, Run(c, w, actions)));
    }
  }

  /**
   * Over every run, appending or not, every file of the ring stays within the limit, unless it holds
   * exactly one text that was written, or what one of the files held at first.
   */
  lemma {:induction false} RunKeepsWithinLimit(c: Config, w: Writer, actions: seq<Action>, texts: set<Bytes>)
    requires c.maxFiles >= 1 && c.maxSizeMB > 0 && Accurate(c, w) && WithinLimitOr(c, w.files, texts)
    ensures WithinLimitOr(c, Run(c, w, actions).files, texts + TextsOf(actions))
    decreases actions
  {
    if actions == [] {
      assert texts + TextsOf([]) == texts;
    } else {
      var a, rest := actions[0], actions[1..];
      ActKeepsWithinLimit(c, w, a, texts);
      RunKeepsAccurate(c, w, [a]);
      assert Run(c, Act(c, w, a), [a][1..]) == Act(c, w, a);
      RunKeepsWithinLimit(c, Act(c, w, a), rest, texts + {BytesOf(a)});
      assert actions == [a] + rest;
      assert texts + {BytesOf(a)} + TextsOf(rest) == texts + TextsOf(actions);
    }
  }

  lemma {:induction false} RunKeepsAccurate(c: Config, w: Writer, actions: seq<Action>)
    requires c.maxFiles >= 1 && Accurate(c, w)
    ensures Accurate(c, Run(c, w, actions))
    decreases actions
  {
    if actions != [] {
      if actions[0].Write? || actions[0].WriteLine? {
        WriteKeepsAccurate(c, w, BytesOf(actions[0]));
      }
      RunKeepsAccurate(c, Act(c, w, actions[0]), actions[1..]);
    }
  }

  /** Over every run only files of the ring change: no index beyond the ring is ever created. */
  lemma {:induction false} RunTouchesOnlyRing(c: Config, w: Writer, actions: seq<Action>)
    requires c.maxFiles >= 1
    ensures OthersSame(w.files, Run(c, w, actions).files, Paths(c), c.maxFiles)
    decreases actions
  {
    if actions != [] {
      ActTouchesOnlyRing(c, w, actions[0]);
      RunTouchesOnlyRing(c, Act(c, w, actions[0]), actions[1..]);
    }
  }

  lemma ActTouchesOnlyRing(c: Config, w: Writer, a: Action)
    requires c.maxFiles >= 1
    ensures OthersSame(w.files, Act(c, w, a).files, Paths(c), c.maxFiles)
  {
    var ps := Paths(c);
    RingPathsDistinct(c);
    var open := Opened(c, w);
    RotationMovesUp(open.files, ps);
    assert ps[..c.maxFiles][0] == PathForIndex(c, 0);
  }

  // ------------------------------------------------------------------------ file sizes

  function Concat(chunks: seq<Bytes>): Bytes {
    if chunks == [] then "" else Concat(chunks[..|chunks| - 1]) + chunks[|chunks| - 1]
  }

  /**
   * The writes that make up the files this object has started, newest file first. Files that
   * were there before are not listed.
   */
  type Chunks = seq<seq<Bytes>>

  function StartedBy(c: Config, files: Files): Chunks {
    if c.append && PathForIndex(c, 0) in files then [] else [[]]
  }

  /** What reopening does to the list: without appending, the current file is started afresh. */
  function Reopened(c: Config, own: Chunks): Chunks {
    if c.append then own else [[]] + (if own == [] then [] else own[1..])
  }

  /** The list as a write finds it. */
  function OwnWhenOpen(c: Config, w: Writer, own: Chunks): Chunks {
    if w.isOpen then own else Reopened(c, own)
  }

  /** How a write changes the list: a new file at the front, or one more write to the front file. */
  function RecordedWrite(c: Config, own: Chunks, text: Bytes, rotates: bool): Chunks
    requires c.maxFiles >= 1
  {
    if rotates then [[text]] + (if |own| < c.maxFiles then own else own[..c.maxFiles - 1])
    else if own == [] then []
    else [own[0] + [text]] + own[1..]
  }

  function Recorded(c: Config, w: Writer, own: Chunks, a: Action): Chunks
    requires c.maxFiles >= 1
  {
    if a.Close? || a.Flush? then own
    else RecordedWrite(c, OwnWhenOpen(c, w, own), BytesOf(a), WouldExceed(c, Opened(c, w), |BytesOf(a)|))
  }

  function RecordedRun(c: Config, w: Writer, own: Chunks, actions: seq<Action>): Chunks
    requires c.maxFiles >= 1
    decreases actions
  {
    if actions == [] then own
    else RecordedRun(c, Act(c, w, actions[0]), Recorded(c, w, own, actions[0]), actions[1..])
  }

  /** A file within the limit, or made by one write that alone is larger. */
  predicate Bounded(c: Config, chunks: seq<Bytes>) {
    c.maxSizeMB == 0 || |Concat(chunks)| <= c.maxSizeMB * MB_TO_BYTES || |chunks| == 1
  }

  /** The listed files are in the ring, hold exactly their writes, and are bounded. */
  predicate OwnFiles(c: Config, files: Files, own: Chunks) {
    && |own| <= c.maxFiles
    && forall k :: 0 <= k < |own| ==>
      Paths(c)[k] in files && files[Paths(c)[k]] == Concat(own[k]) && Bounded(c, own[k])
  }

  /** A closed writer is reopened first. */
  lemma ReopenKeepsOwnFiles(c: Config, w: Writer, own: Chunks)
    requires c.maxFiles >= 1 && Accurate(c, w) && OwnFiles(c, w.files, own)
    ensures Opened(c, w).isOpen && Accurate(c, Opened(c, w))
    ensures OwnFiles(c, Opened(c, w).files, OwnWhenOpen(c, w, own))
  {
    RingPathsDistinct(c);
    if !w.isOpen && !c.append {
      EmptiedKeepsOwnFiles(c, w.files, own);
    }
  }

  lemma EmptiedKeepsOwnFiles(c: Config, files: Files, own: Chunks)
    requires c.maxFiles >= 1 && !c.append && OwnFiles(c, files, own)
    ensures OwnFiles(c, files[PathForIndex(c, 0) := ""], Reopened(c, own))
  {
    RingPathsDistinct(c);
    assert Concat([]) == "";
  }

  lemma PlainWriteKeepsOwnFiles(c: Config, open: Writer, own: Chunks, text: Bytes)
    requires c.maxFiles >= 1 && open.isOpen && Accurate(c, open) && OwnFiles(c, open.files, own)
    requires !WouldExceed(c, open, |text|)
    ensures OwnFiles(c, Written(c, open, text).files, RecordedWrite(c, own, text, false))
  {
    RingPathsDistinct(c);
    if own != [] {
      assert (own[0] + [text])[..|own[0]|] == own[0];
      assert Concat(own[0] + [text]) == Concat(own[0]) + text;
      assert Bounded(c, own[0] + [text]);
    }
  }

  lemma RotatedWriteKeepsOwnFiles(c: Config, open: Writer, own: Chunks, text: Bytes)
    requires c.maxFiles >= 1 && open.isOpen && Accurate(c, open) && OwnFiles(c, open.files, own)
    requires WouldExceed(c, open, |text|)
    ensures OwnFiles(c, Written(c, open, text).files, RecordedWrite(c, own, text, true))
  {
    ExceedingWrite(c, open, text);
    assert FoundFiles(c, open) == open.files;
    OwnFilesMoveUp(c, open.files, Written(c, open, text).files, own, text);
  }

  lemma OwnFilesMoveUp(c: Config, before: Files, after: Files, own: Chunks, text: Bytes)
    requires c.maxFiles >= 1 && OwnFiles(c, before, own) && RotatedOnto(before, after, Paths(c), text)
    ensures OwnFiles(c, after, RecordedWrite(c, own, text, true))
  {
    var ps, own' := Paths(c), RecordedWrite(c, own, text, true);
    assert Concat([text]) == Concat([text][..0]) + text == text;
    forall k | 0 <= k < |own'|
      ensures ps[k] in after && after[ps[k]] == Concat(own'[k]) && Bounded(c, own'[k])
    {
      if k > 0 {
        assert own'[k] == own[k - 1];
        assert SameFile(after, ps[k - 1 + 1], before, ps[k - 1]);
      }
    }
  }

  lemma OpenWriteKeepsOwnFiles(c: Config, open: Writer, own: Chunks, text: Bytes)
    requires c.maxFiles >= 1 && open.isOpen && Accurate(c, open) && OwnFiles(c, open.files, own)
    ensures OwnFiles(c, Written(c, open, text).files,
                     RecordedWrite(c, own, text, WouldExceed(c, open, |text|)))
  {
    if WouldExceed(c, open, |text|) {
      RotatedWriteKeepsOwnFiles(c, open, own, text);
    } else {
      PlainWriteKeepsOwnFiles(c, open, own, text);
    }
  }

  lemma WriteKeepsOwnFiles(c: Config, w: Writer, own: Chunks, text: Bytes)
    requires c.maxFiles >= 1 && Accurate(c, w) && OwnFiles(c, w.files, own)
    ensures OwnFiles(c, Written(c, w, text).files,
                     RecordedWrite(c, OwnWhenOpen(c, w, own), text, WouldExceed(c, Opened(c, w), |text|)))
  {
    var open := Opened(c, w);
    ReopenKeepsOwnFiles(c, w, own);
    OpenWriteKeepsOwnFiles(c, open, OwnWhenOpen(c, w, own), text);
    assert Opened(c, open) == open;
    assert Ready(c, w, |text|) == Ready(c, open, |text|);
  }

  lemma ActKeepsOwnFiles(c: Config, w: Writer, own: Chunks, a: Action)
    requires c.maxFiles >= 1 && Accurate(c, w) && OwnFiles(c, w.files, own)
    ensures OwnFiles(c, Act(c, w, a).files, Recorded(c, w, own, a))
  {
    if a.Write? || a.WriteLine? {
      WriteKeepsOwnFiles(c, w, own, BytesOf(a));
    }
  }

  /**
   * Over every run, appending or not, every file this object starts stays within the size limit
   * unless it consists of a single write that is larger on its own.
   */
  lemma {:induction false} RunKeepsOwnFiles(c: Config, w: Writer, own: Chunks, actions: seq<Action>)
    requires c.maxFiles >= 1 && Accurate(c, w) && OwnFiles(c, w.files, own)
    ensures OwnFiles(c, Run(c, w, actions).files, RecordedRun(c, w, own, actions))
    decreases actions
  {
    if actions != [] {
      var a := actions[0];
      ActKeepsOwnFiles(c, w, own, a);
      RunKeepsAccurate(c, w, [a]);
      assert Run(c, Act(c, w, a), [a][1..]) == Act(c, w, a);
      RunKeepsOwnFiles(c, Act(c, w, a), Recorded(c, w, own, a), actions[1..]);
    }
  }

  /** The writer as constructed on given files: accurate, with at most the current file its own. */
  lemma ConstructedWriter(c: Config, files: Files)
    requires c.maxFiles >= 1
    ensures var w := OpenCurrent(c, Writer(files, false, 0, 0));
            Accurate(c, w) && OwnFiles(c, w.files, StartedBy(c, files))
  {
  }
}
