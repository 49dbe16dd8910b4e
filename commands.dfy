/**
 * The logic inside the advanced commands, with their file access replaced by
 * a given file table: the `historial` listing, the line scan of `buscar`,
 * and the counts and permission rendering of `estadisticas`.
 */
module Commands {
  import opened Wrappers
  import Text
  import History

  // ---------------------------------------------------------------------
  // historial
  // ---------------------------------------------------------------------

  /** One printed item of the `historial` listing. */
  datatype ListingLine =
    | Header(count: nat)                 // the title line, naming history_count
    | EmptyNotice                        // the two lines printed for an empty log
    | Entry(number: nat, text: string)   // "  <number>: <text>"
    | Blank                              // the closing empty line

  /** `cmd_historial`: entry `i` is printed with number `i + 1`, oldest first;
      an empty log prints the notice and no entry. */
  method Historial(h: History.HistoryLog) returns (out: seq<ListingLine>)
    requires h.Valid()
    ensures |out| >= 2 && out[0] == Header(h.count)
    ensures h.count == 0 ==> out == [Header(0), EmptyNotice]
    ensures h.count > 0 ==> |out| == h.count + 2 && out[|out| - 1] == Blank
    ensures h.count > 0 ==> forall i :: 0 <= i < h.count ==> out[i + 1] == Entry(i + 1, h.Log[i])
  {
    out := [Header(h.count)];
    if h.count == 0 {
      out := out + [EmptyNotice];
      return;
    }
    var i := 0;
    while i < h.count
      invariant 0 <= i <= h.count
      invariant |out| == i + 1 && out[0] == Header(h.count)
      invariant forall j :: 0 <= j < i ==> out[j + 1] == Entry(j + 1, h.Log[j])
    {
      out := out + [Entry(i + 1, h.slots[i].value)];
      i := i + 1;
    }
    out := out + [Blank];
  }

  // ---------------------------------------------------------------------
  // The file table standing for the file system
  // ---------------------------------------------------------------------

  /** What `stat` reports (only the mode is used) and, when `fopen(name, "r")`
      succeeds, the file's content. */
  datatype File = File(mode: bv32, content: Option<string>)

  /** A name absent from the table makes `stat` fail. */
  type FileTable = map<string, File>

  // ---------------------------------------------------------------------
  // buscar
  // ---------------------------------------------------------------------

  /** The size of the `line` buffer handed to `fgets`. */
  const LineBufferSize: nat := 1024

  /** `strcspn(s, "\n")`: the index of the first newline, or `|s|`. */
  function NewlineIndex(s: string): (n: nat)
    ensures n <= |s| && (n < |s| ==> s[n] == '\n')
    ensures forall i :: 0 <= i < n ==> s[i] != '\n'
  {
    if s == [] || s[0] == '\n' then 0 else 1 + NewlineIndex(s[1..])
  }

  /** How many characters one `fgets(line, 1024, file)` takes from the rest
      `s` of the file: up to and including the first newline, but never more
      than 1023. */
  function ChunkLength(s: string): (n: nat)
    requires s != []
    ensures 0 < n <= |s| && n < LineBufferSize
    ensures forall i :: 0 <= i < n - 1 ==> s[i] != '\n'
    ensures n < |s| ==> s[n - 1] == '\n' || n == LineBufferSize - 1
  {
    var throughNewline := if NewlineIndex(s) < |s| then NewlineIndex(s) + 1 else |s|;
    if throughNewline <= LineBufferSize - 1 then throughNewline else LineBufferSize - 1
  }

  /** The strings successive `fgets` calls return on a file with content `s`. */
  function Chunks(s: string): (cs: seq<string>)
    ensures forall k :: 0 <= k < |cs| ==> 0 < |cs[k]| < LineBufferSize
    decreases |s|
  {
    if s == [] then [] else [s[..ChunkLength(s)]] + Chunks(s[ChunkLength(s)..])
  }

  /** Reading in chunks loses and reorders nothing. */
  lemma {:induction false} ChunksJoin(s: string)
    ensures Text.Concat(Chunks(s)) == s
    decreases |s|
  {
    if s != [] {
      var n := ChunkLength(s);
      ChunksJoin(s[n..]);
      assert ([s[..n]] + Chunks(s[n..]))[1..] == Chunks(s[n..]);
      assert s[..n] + s[n..] == s;
    }
  }

  /** `line[strcspn(line, "\n")] = '\0'`: the chunk cut at its first newline. */
  function StripNewline(chunk: string): (line: string)
    ensures |line| <= |chunk| && line == chunk[..|line|]
    ensures forall i :: 0 <= i < |line| ==> line[i] != '\n'
    ensures |line| < |chunk| ==> chunk[|line|] == '\n'
  {
    chunk[..NewlineIndex(chunk)]
  }

  /** The lines the `buscar` loop sees, one per `fgets` call. */
  function FileLines(content: string): (lines: seq<string>)
    ensures |lines| == |Chunks(content)|
    ensures forall k :: 0 <= k < |lines| ==> lines[k] == StripNewline(Chunks(content)[k])
    decreases |content|
  {
    if content == [] then []
    else
      var n := ChunkLength(content);
      var rest := FileLines(content[n..]);
      assert Chunks(content) == [content[..n]] + Chunks(content[n..]);
      [StripNewline(content[..n])] + rest
  }

  /** The lines of a non-empty content: its first chunk, cut, then the rest. */
  lemma FileLinesCons(content: string)
    requires content != []
    ensures FileLines(content) == [StripNewline(content[..ChunkLength(content)])] + FileLines(content[ChunkLength(content)..])
  {
  }

  /** The first `fgets` on a long line stops at the buffer's capacity. */
  lemma LongLineChunk(l: string)
    requires |l| >= LineBufferSize - 1 && forall i :: 0 <= i < |l| ==> l[i] != '\n'
    ensures ChunkLength(l + "\n") == LineBufferSize - 1
    ensures StripNewline((l + "\n")[..LineBufferSize - 1]) == l[..LineBufferSize - 1]
    ensures (l + "\n")[LineBufferSize - 1..] == l[LineBufferSize - 1..] + "\n"
  {
    var c := l + "\n";
    NewlineAt(c, |l|);
    assert c[..LineBufferSize - 1] == l[..LineBufferSize - 1];
    Text.DropAppend(l, "\n", LineBufferSize - 1);
  }

  /** A line longer than 1022 characters does not fit the buffer: `buscar`
      sees its first 1023 characters as one line and the rest as the next. */
  lemma LongLineSplits(l: string)
    requires |l| >= LineBufferSize - 1 && forall i :: 0 <= i < |l| ==> l[i] != '\n'
    ensures FileLines(l + "\n") == [l[..LineBufferSize - 1]] + FileLines(l[LineBufferSize - 1..] + "\n")
  {
    LongLineChunk(l);
    FileLinesCons(l + "\n");
  }

  /** Lines joined, each followed by a newline. */
  function JoinLines(lines: seq<string>): string
  {
    if lines == [] then [] else lines[0] + "\n" + JoinLines(lines[1..])
  }

  /** A file of lines of at most 1022 characters, each ended by a newline, is
      read back as exactly those lines. */
  lemma {:induction false} FileLinesOfShortLines(lines: seq<string>)
    requires forall k :: 0 <= k < |lines| ==> |lines[k]| <= LineBufferSize - 2
    requires forall k, i :: 0 <= k < |lines| && 0 <= i < |lines[k]| ==> lines[k][i] != '\n'
    ensures FileLines(JoinLines(lines)) == lines
    decreases |lines|
  {
    if lines != [] {
      var l := lines[0];
      var content := JoinLines(lines);
      var rest := JoinLines(lines[1..]);
      assert content == l + "\n" + rest;
      assert content[|l|] == '\n';
      assert forall i :: 0 <= i < |l| ==> content[i] == l[i];
      NewlineAt(content, |l|);
      assert ChunkLength(content) == |l| + 1;
      assert content[..|l| + 1] == l + "\n";
      assert StripNewline(l + "\n") == l by {
        NewlineAt(l + "\n", |l|);
        assert (l + "\n")[..|l|] == l;
      }
      assert content[|l| + 1..] == rest;
      FileLinesOfShortLines(lines[1..]);
    }
  }

  /** The first newline of `s` is at `n` when `s[n]` is a newline and none comes before it. */
  lemma NewlineAt(s: string, n: nat)
    requires n < |s| && s[n] == '\n' && forall i :: 0 <= i < n ==> s[i] != '\n'
    ensures NewlineIndex(s) == n
  {
  }

  /** A line reported by `buscar`: its number and its text. */
  datatype Hit = Hit(lineNum: nat, line: string)

  /** The reports for `lines[i..]`: each line that contains `text`, under
      its 1-based number in `lines`. */
  function HitsFrom(lines: seq<string>, text: string, i: nat): (hs: seq<Hit>)
    requires i <= |lines|
    ensures |hs| <= |lines| - i
    ensures forall k :: 0 <= k < |hs| ==> i < hs[k].lineNum <= |lines|
    decreases |lines| - i
  {
    if i == |lines| then []
    else (if Text.Occurs(text, lines[i]) then [Hit(i + 1, lines[i])] else []) + HitsFrom(lines, text, i + 1)
  }

  /** All the reports for `lines`. */
  function Hits(lines: seq<string>, text: string): seq<Hit>
  {
    HitsFrom(lines, text, 0)
  }

  /** A line is reported exactly when it contains the search text, and under
      its own number. */
  lemma {:induction false} HitsExact(lines: seq<string>, text: string, i: nat, h: Hit)
    requires i <= |lines|
    ensures h in HitsFrom(lines, text, i) <==>
      i < h.lineNum <= |lines| && h.line == lines[h.lineNum - 1] && Text.Occurs(text, h.line)
    decreases |lines| - i
  {
    if i < |lines| {
      HitsExact(lines, text, i + 1, h);
    }
  }

  /** Reports whose line numbers strictly increase. */
  predicate InFileOrder(hs: seq<Hit>)
  {
    forall j, k :: 0 <= j < k < |hs| ==> hs[j].lineNum < hs[k].lineNum
  }

  /** Reported lines come in file order, each number once. */
  lemma {:induction false} HitsIncreasing(lines: seq<string>, text: string, i: nat)
    requires i <= |lines|
    ensures InFileOrder(HitsFrom(lines, text, i))
    decreases |lines| - i
  {
    if i < |lines| {
      HitsIncreasing(lines, text, i + 1);
      var pre := if Text.Occurs(text, lines[i]) then [Hit(i + 1, lines[i])] else [];
      var rest := HitsFrom(lines, text, i + 1);
      var hs := pre + rest;
      forall j, k | 0 <= j < k < |hs| ensures hs[j].lineNum < hs[k].lineNum {
        assert hs[k] == rest[k - |pre|];
        assert i + 1 < rest[k - |pre|].lineNum;
        if j >= |pre| {
          assert hs[j] == rest[j - |pre|];
          assert rest[j - |pre|].lineNum < rest[k - |pre|].lineNum;
        } else {
          assert hs[j].lineNum == i + 1;
        }
      }
    }
  }

  /** The loop of `cmd_buscar`: `line_num` starts at 1 and grows by one per
      line; each line containing `text` is reported and counted. */
  method Scan(lines: seq<string>, text: string) returns (hits: seq<Hit>, matches: nat)
    ensures hits == Hits(lines, text)
    ensures matches == |hits| && matches <= |lines|
  {
    hits, matches := [], 0;
    var lineNum := 1;
    var i := 0;
    while i < |lines|
      invariant 0 <= i <= |lines| && lineNum == i + 1
      invariant matches == |hits|
      invariant hits + HitsFrom(lines, text, i) == Hits(lines, text)
    {
      ghost var found := if Text.Occurs(text, lines[i]) then [Hit(lineNum, lines[i])] else [];
      Text.AppendAssoc(hits, found, HitsFrom(lines, text, i + 1));
      if Text.Occurs(text, lines[i]) {
        hits := hits + [Hit(lineNum, lines[i])];
        matches := matches + 1;
      }
      lineNum := lineNum + 1;
      i := i + 1;
    }
  }

  /** What `cmd_buscar` prints. */
  datatype SearchReport =
    | SearchUsage                                     // args[1] or args[2] missing
    | SearchOpenFailed(filename: string)              // fopen failed
    | Searched(text: string, filename: string, hits: seq<Hit>, matches: nat)

  /** `cmd_buscar(args)`: `args[1]` is the text, `args[2]` the file name. */
  method Buscar(args: seq<string>, files: FileTable) returns (r: SearchReport)
    requires args != []
    ensures r == SearchUsage <==> |args| < 3
    ensures |args| >= 3 && (args[2] !in files || files[args[2]].content.None?) ==> r == SearchOpenFailed(args[2])
    ensures |args| >= 3 && args[2] in files && files[args[2]].content.Some? ==>
      r == Searched(args[1], args[2], Hits(FileLines(files[args[2]].content.value), args[1]),
                    |Hits(FileLines(files[args[2]].content.value), args[1])|)
  {
    if |args| < 3 {
      return SearchUsage;
    }
    var text, filename := args[1], args[2];
    if filename !in files || files[filename].content.None? {
      return SearchOpenFailed(filename);
    }
    var hits, matches := Scan(FileLines(files[filename].content.value), text);
    return Searched(text, filename, hits, matches);
  }

  // ---------------------------------------------------------------------
  // estadisticas
  // ---------------------------------------------------------------------

  /** `isspace` in the C locale. */
  predicate IsSpace(c: char)
  {
    c == ' ' || c == '\t' || c == '\n' || c == '\U{B}' || c == '\U{C}' || c == '\r'
  }

  /** The C locale's white space is the space and the five control codes
      from horizontal tab (9) to carriage return (13). */
  lemma SpaceCodes(c: char)
    ensures IsSpace(c) <==> c as int == 32 || 9 <= c as int <= 13
  {
  }

  /** The words the counting loop finds in `s` when it starts in state
      `inWord`: one for each non-space character met while out of a word. */
  function WordsFrom(s: string, inWord: bool): (n: nat)
    ensures n <= |s|
    decreases |s|
  {
    if s == [] then 0
    else if IsSpace(s[0]) then WordsFrom(s[1..], false)
    else (if inWord then 0 else 1) + WordsFrom(s[1..], true)
  }

  /** The newlines in `s`. */
  function NewlineCount(s: string): (n: nat)
    ensures n <= |s|
    ensures n == 0 <==> forall i :: 0 <= i < |s| ==> s[i] != '\n'
    decreases |s|
  {
    if s == [] then 0 else (if s[0] == '\n' then 1 else 0) + NewlineCount(s[1..])
  }

  /** The line count printed: the newlines, except that a non-empty content
      without any newline counts as one line. */
  function LineCount(s: string): (n: nat)
    ensures n <= |s|
    ensures s != [] ==> n >= 1
  {
    var nl := NewlineCount(s);
    if |s| > 0 && nl == 0 then 1 else nl
  }

  /** Newlines of a concatenation are those of its parts. */
  lemma {:induction false} NewlineCountAppend(a: string, b: string)
    ensures NewlineCount(a + b) == NewlineCount(a) + NewlineCount(b)
    decreases |a|
  {
    if a == [] {
      assert a + b == b;
    } else {
      assert (a + b)[0] == a[0] && (a + b)[1..] == a[1..] + b;
      NewlineCountAppend(a[1..], b);
    }
  }

  /** A last line without a newline adds nothing to the count once some
      earlier line ends in a newline; on its own it counts as one line. */
  lemma LastLineWithoutNewline(s: string, t: string)
    requires forall i :: 0 <= i < |t| ==> t[i] != '\n'
    ensures NewlineCount(s) > 0 ==> LineCount(s + t) == LineCount(s)
    ensures s == [] && t != [] ==> LineCount(s + t) == 1
  {
    NewlineCountAppend(s, t);
    assert s == [] ==> s + t == t;
  }

  /** Examples of the line count. */
  lemma LineCountExamples()
    ensures LineCount("a\nb") == 1
    ensures LineCount("a\nb\n") == 2
    ensures LineCount("ab") == 1
    ensures LineCount("") == 0
  {
  }

  /** Lines, words and characters, as `cmd_estadisticas` prints them. */
  datatype Counts = Counts(lines: nat, words: nat, chars: nat)

  /** The `fgetc` loop of `cmd_estadisticas` and its adjustment for a last
      line without a newline. */
  method CountContent(text: string) returns (c: Counts)
    ensures c.chars == |text|
    ensures c.words == WordsFrom(text, false) && c.words <= c.chars
    ensures c.lines == LineCount(text) && c.lines <= c.chars
  {
    var lines, words, chars := 0, 0, 0;
    var inWord := false;
    var i := 0;
    while i < |text|
      invariant 0 <= i <= |text| && chars == i
      invariant lines + NewlineCount(text[i..]) == NewlineCount(text)
      invariant words + WordsFrom(text[i..], inWord) == WordsFrom(text, false)
    {
      assert text[i..][1..] == text[i + 1..];
      var ch := text[i];
      chars := chars + 1;
      if ch == '\n' {
        lines := lines + 1;
      }
      if IsSpace(ch) {
        inWord := false;
      } else if !inWord {
        inWord := true;
        words := words + 1;
      }
      i := i + 1;
    }
    assert text[i..] == [];
    if chars > 0 && lines == 0 {
      lines := 1;
    }
    c := Counts(lines, words, chars);
  }

  /** Inside a word, the rest of the word starts nothing new. */
  lemma {:induction false} WordsSkipWord(s: string)
    ensures WordsFrom(s, true) == WordsFrom(s[|Text.TakeField(s, IsSpace)|..], true)
    decreases |s|
  {
    if s != [] && !IsSpace(s[0]) {
      WordsSkipWord(s[1..]);
      assert Text.TakeField(s, IsSpace) == [s[0]] + Text.TakeField(s[1..], IsSpace);
      assert s[|Text.TakeField(s, IsSpace)|..] == s[1..][|Text.TakeField(s[1..], IsSpace)|..];
    }
  }

  /** The state machine counts the maximal runs of non-space characters. */
  lemma {:induction false} WordsAreFields(s: string)
    ensures WordsFrom(s, false) == |Text.Fields(s, IsSpace)|
    decreases |s|
  {
    if s != [] {
      if IsSpace(s[0]) {
        WordsAreFields(s[1..]);
      } else {
        var w := Text.TakeField(s, IsSpace);
        var rest := s[|w|..];
        WordsSkipWord(s[1..]);
        assert w == [s[0]] + Text.TakeField(s[1..], IsSpace);
        assert s[1..][|Text.TakeField(s[1..], IsSpace)|..] == rest;
        assert WordsFrom(s, false) == 1 + WordsFrom(rest, true);
        if rest != [] {
          assert IsSpace(rest[0]);
          assert WordsFrom(rest, true) == WordsFrom(rest, false);
        }
        WordsAreFields(rest);
      }
    }
  }

  /** The permission bits of `st_mode`, as `S_IRUSR` ... `S_IXOTH`. */
  const S_IRUSR: bv32 := 0x100
  const S_IWUSR: bv32 := 0x80
  const S_IXUSR: bv32 := 0x40
  const S_IRGRP: bv32 := 0x20
  const S_IWGRP: bv32 := 0x10
  const S_IXGRP: bv32 := 0x8
  const S_IROTH: bv32 := 0x4
  const S_IWOTH: bv32 := 0x2
  const S_IXOTH: bv32 := 0x1

  /** One position of the rendering: `letter` when `bit` is set in `mode`. */
  function PermLetter(mode: bv32, bit: bv32, letter: char): char
  {
    if mode & bit != 0 then letter else '-'
  }

  /** The `rwx` rendering of the permission bits, as `ls -l` shows them. */
  function PermString(mode: bv32): (r: string)
    ensures |r| == 9
  {
    [ PermLetter(mode, S_IRUSR, 'r'), PermLetter(mode, S_IWUSR, 'w'), PermLetter(mode, S_IXUSR, 'x'),
      PermLetter(mode, S_IRGRP, 'r'), PermLetter(mode, S_IWGRP, 'w'), PermLetter(mode, S_IXGRP, 'x'),
      PermLetter(mode, S_IROTH, 'r'), PermLetter(mode, S_IWOTH, 'w'), PermLetter(mode, S_IXOTH, 'x') ]
  }

  /** `PermStringBits` for the owner's three positions. */
  lemma OwnerBits(mode: bv32, k: nat)
    requires 0 <= k < 3
    ensures PermString(mode)[k] == if (mode >> (8 - k)) & 1 == 1 then "rwx"[k % 3] else '-'
  {
    var r := PermString(mode);
    if k == 0 {
      assert k % 3 == 0 && r[0] == PermLetter(mode, S_IRUSR, 'r') && "rwx"[0] == 'r';
      assert (mode >> 8) & 1 == 1 <==> mode & S_IRUSR != 0;
    } else if k == 1 {
      assert k % 3 == 1 && r[1] == PermLetter(mode, S_IWUSR, 'w') && "rwx"[1] == 'w';
      assert (mode >> 7) & 1 == 1 <==> mode & S_IWUSR != 0;
    } else {
      assert k % 3 == 2 && r[2] == PermLetter(mode, S_IXUSR, 'x') && "rwx"[2] == 'x';
      assert (mode >> 6) & 1 == 1 <==> mode & S_IXUSR != 0;
    }
  }

  /** `PermStringBits` for the group's three positions. */
  lemma GroupBits(mode: bv32, k: nat)
    requires 3 <= k < 6
    ensures PermString(mode)[k] == if (mode >> (8 - k)) & 1 == 1 then "rwx"[k % 3] else '-'
  {
    var r := PermString(mode);
    if k == 3 {
      assert k % 3 == 0 && r[3] == PermLetter(mode, S_IRGRP, 'r') && "rwx"[0] == 'r';
      assert (mode >> 5) & 1 == 1 <==> mode & S_IRGRP != 0;
    } else if k == 4 {
      assert k % 3 == 1 && r[4] == PermLetter(mode, S_IWGRP, 'w') && "rwx"[1] == 'w';
      assert (mode >> 4) & 1 == 1 <==> mode & S_IWGRP != 0;
    } else {
      assert k % 3 == 2 && r[5] == PermLetter(mode, S_IXGRP, 'x') && "rwx"[2] == 'x';
      assert (mode >> 3) & 1 == 1 <==> mode & S_IXGRP != 0;
    }
  }

  /** `PermStringBits` for the others' three positions. */
  lemma OtherBits(mode: bv32, k: nat)
    requires 6 <= k < 9
    ensures PermString(mode)[k] == if (mode >> (8 - k)) & 1 == 1 then "rwx"[k % 3] else '-'
  {
    var r := PermString(mode);
    if k == 6 {
      assert k % 3 == 0 && r[6] == PermLetter(mode, S_IROTH, 'r') && "rwx"[0] == 'r';
      assert (mode >> 2) & 1 == 1 <==> mode & S_IROTH != 0;
    } else if k == 7 {
      assert k % 3 == 1 && r[7] == PermLetter(mode, S_IWOTH, 'w') && "rwx"[1] == 'w';
      assert (mode >> 1) & 1 == 1 <==> mode & S_IWOTH != 0;
    } else {
      assert k % 3 == 2 && r[8] == PermLetter(mode, S_IXOTH, 'x') && "rwx"[2] == 'x';
      assert (mode >> 0) & 1 == 1 <==> mode & S_IXOTH != 0;
    }
  }

  /** Position `k` shows its letter (`r`, `w`, `x` in turn) exactly when
      bit `8 - k` of the mode is set, and `-` otherwise. */
  lemma PermStringBits(mode: bv32, k: nat)
    requires k < 9
    ensures PermString(mode)[k] == if (mode >> (8 - k)) & 1 == 1 then "rwx"[k % 3] else '-'
  {
    if k < 3 {
      OwnerBits(mode, k);
    } else if k < 6 {
      GroupBits(mode, k);
    } else {
      OtherBits(mode, k);
    }
  }

  /** The permission bits read back from a rendering. */
  function ModeOfPermString(s: string): (m: bv32)
    requires |s| == 9
    ensures m & 0x1FF == m
  {
    (if s[0] != '-' then S_IRUSR else 0) | (if s[1] != '-' then S_IWUSR else 0) |
    (if s[2] != '-' then S_IXUSR else 0) | (if s[3] != '-' then S_IRGRP else 0) |
    (if s[4] != '-' then S_IWGRP else 0) | (if s[5] != '-' then S_IXGRP else 0) |
    (if s[6] != '-' then S_IROTH else 0) | (if s[7] != '-' then S_IWOTH else 0) |
    (if s[8] != '-' then S_IXOTH else 0)
  }

  /** The rendering keeps exactly the low nine bits: `mode & 0777`. */
  lemma PermStringRoundTrip(mode: bv32)
    ensures ModeOfPermString(PermString(mode)) == mode & 0x1FF
  {
  }

  /** The octal digit for `d`. */
  function OctalDigit(d: nat): (c: char)
    requires d < 8
    ensures '0' <= c <= '7'
  {
    ('0' as int + d) as char
  }

  /** `printf("%o", n)`: octal digits, most significant first, no leading zero. */
  function Octal(n: nat): (s: string)
    ensures |s| > 0 && (|s| > 1 ==> s[0] != '0')
    ensures forall i :: 0 <= i < |s| ==> '0' <= s[i] <= '7'
    decreases n
  {
    if n < 8 then [OctalDigit(n)] else Octal(n / 8) + [OctalDigit(n % 8)]
  }

  /** The number an octal digit string denotes. */
  function OctalValue(s: string): nat
    requires forall i :: 0 <= i < |s| ==> '0' <= s[i] <= '7'
    decreases |s|
  {
    if s == [] then 0 else OctalValue(s[..|s| - 1]) * 8 + (s[|s| - 1] as int - '0' as int)
  }

  /** The printed octal number reads back as the number printed. */
  lemma {:induction false} OctalRoundTrip(n: nat)
    ensures OctalValue(Octal(n)) == n
    decreases n
  {
    if n >= 8 {
      OctalRoundTrip(n / 8);
      var s := Octal(n);
      assert s[..|s| - 1] == Octal(n / 8);
    }
  }

  /** `mode & 0777` prints as at most three octal digits. */
  lemma PermissionOctalWidth(mode: bv32)
    ensures |Octal((mode & 0x1FF) as nat)| <= 3
  {
    var n := (mode & 0x1FF) as nat;
    assert n < 512;
    if n >= 8 {
      var q := n / 8;
      assert |Octal(n)| == |Octal(q)| + 1;
      if q >= 8 {
        assert q / 8 < 8;
        assert |Octal(q)| == |Octal(q / 8)| + 1;
      }
    }
  }

  /** What `cmd_estadisticas` prints, apart from size, dates and file type. */
  datatype StatsReport =
    | StatsUsage                                 // args[1] missing
    | StatFailed(filename: string)               // stat failed
    | Stats(filename: string, counts: Option<Counts>, octal: string, perms: string)
      // counts is None when the file cannot be opened for reading

  /** `cmd_estadisticas(args)`: `args[1]` is the file name. */
  method Estadisticas(args: seq<string>, files: FileTable) returns (r: StatsReport)
    requires args != []
    ensures r == StatsUsage <==> |args| < 2
    ensures |args| >= 2 && args[1] !in files ==> r == StatFailed(args[1])
    ensures |args| >= 2 && args[1] in files ==>
      var f := files[args[1]];
      && r.Stats? && r.filename == args[1]
      && r.octal == Octal((f.mode & 0x1FF) as nat) && r.perms == PermString(f.mode)
      && (r.counts.Some? <==> f.content.Some?)
      && (f.content.Some? ==> r.counts.value == Counts(LineCount(f.content.value), WordsFrom(f.content.value, false), |f.content.value|))
  {
    if |args| < 2 {
      return StatsUsage;
    }
    var filename := args[1];
    if filename !in files {
      return StatFailed(filename);
    }
    var f := files[filename];
    var counts: Option<Counts> := None;
    if f.content.Some? {
      var c := CountContent(f.content.value);
      counts := Some(c);
    }
    return Stats(filename, counts, Octal((f.mode & 0x1FF) as nat), PermString(f.mode));
  }
}
