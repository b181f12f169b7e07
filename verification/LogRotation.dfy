/** The log files: numbered, shifted up by one when the first is full, and cut off at a number of files. */
module LogRotation {
  import opened Common

  // ---------- File names ----------

  function Digit(d: nat): char
    requires d < 10
  {
    (48 + d) as char
  }

  function Digits(n: nat): string {
    if n < 10 then [Digit(n)] else Digits(n / 10) + [Digit(n % 10)]
  }

  /** The number in a file name: at least four digits. */
  function Number(i: nat): string {
    if i < 10000 then [Digit(i / 1000), Digit(i / 100 % 10), Digit(i / 10 % 10), Digit(i % 10)] else Digits(i)
  }

  /** `strcmp(a, b) < 0` */
  predicate StrLess(a: string, b: string) {
    if b == [] then false
    else if a == [] then true
    else if a[0] != b[0] then a[0] < b[0]
    else StrLess(a[1..], b[1..])
  }

  lemma StrLessFour(a: string, b: string)
    requires |a| == 4 && |b| == 4
    ensures StrLess(a, b) <==>
              if a[0] != b[0] then a[0] < b[0]
              else if a[1] != b[1] then a[1] < b[1]
              else if a[2] != b[2] then a[2] < b[2]
              else a[3] < b[3]
  {
    assert StrLess(a[3..], b[3..]) <==> a[3] < b[3] by { assert a[3..][1..] == [] == b[3..][1..]; }
    assert a[1..][1..] == a[2..] && b[1..][1..] == b[2..];
    assert a[2..][1..] == a[3..] && b[2..][1..] == b[3..];
    assert StrLess(a[2..], b[2..]) <==> if a[2] != b[2] then a[2] < b[2] else a[3] < b[3];
    assert StrLess(a[1..], b[1..]) <==> if a[1] != b[1] then a[1] < b[1] else StrLess(a[2..], b[2..]);
  }

  /** Names of up to four digits are in the order of their numbers. */
  lemma NamesInOrder(i: nat, j: nat)
    requires i < 10000 && j < 10000
    ensures StrLess(Number(i), Number(j)) <==> i < j
  {
    StrLessFour(Number(i), Number(j));
    var a, b, c, d := i / 1000, i / 100 % 10, i / 10 % 10, i % 10;
    var e, f, g, h := j / 1000, j / 100 % 10, j / 10 % 10, j % 10;
    assert Number(i) == [Digit(a), Digit(b), Digit(c), Digit(d)];
    assert Number(j) == [Digit(e), Digit(f), Digit(g), Digit(h)];
    Decimal(i);
    Decimal(j);
    Lexicographic(a, b, c, d, e, f, g, h);
  }

  lemma Decimal(i: nat)
    requires i < 10000
    ensures i / 1000 < 10 && i == 1000 * (i / 1000) + 100 * (i / 100 % 10) + 10 * (i / 10 % 10) + i % 10
  {
    var j := i / 10;
    var k := j / 10;
    assert i == 10 * j + i % 10 && j == 10 * k + j % 10 && k == 10 * (k / 10) + k % 10;
    assert i / 100 == k && i / 1000 == k / 10;
  }

  lemma Lexicographic(a: nat, b: nat, c: nat, d: nat, e: nat, f: nat, g: nat, h: nat)
    requires a < 10 && b < 10 && c < 10 && d < 10 && e < 10 && f < 10 && g < 10 && h < 10
    ensures 1000 * a + 100 * b + 10 * c + d < 1000 * e + 100 * f + 10 * g + h <==>
              if a != e then a < e else if b != f then b < f else if c != g then c < g else d < h
  {
  }

  lemma {:induction false} StrLessLonger(a: string, b: string, c: char)
    requires |a| == |b|
    ensures StrLess(a + [c], b) <==> StrLess(a, b)
    ensures StrLess(b, a + [c]) <==> StrLess(b, a) || a == b
  {
    if a != [] {
      assert (a + [c])[1..] == a[1..] + [c];
      StrLessLonger(a[1..], b[1..], c);
      assert a == [a[0]] + a[1..] && b == [b[0]] + b[1..];
    }
  }

  lemma TenThousand()
    ensures Number(10000) == Number(1000) + ['0']
  {
    assert Digits(1) == "1";
    assert Digits(10) == "10";
    assert Digits(100) == "100";
    assert Digits(1000) == "1000";
  }

  /** Where a name stands among the names of the files 0 to 10000: the last one between 1000 and 1001. */
  function Rank(i: nat): nat {
    if i < 10000 then 2 * i else 2001
  }

  lemma NumbersDiffer(i: nat, j: nat)
    requires i < 10000 && j < 10000
    ensures Number(i) == Number(j) ==> i == j
  {
    NamesInOrder(i, j);
    NamesInOrder(j, i);
    StrLessFour(Number(i), Number(j));
    StrLessFour(Number(j), Number(i));
  }

  lemma RankIsOrder(i: nat, j: nat)
    requires i <= 10000 && j <= 10000
    ensures StrLess(Number(i), Number(j)) <==> Rank(i) < Rank(j)
  {
    TenThousand();
    if i < 10000 && j < 10000 {
      NamesInOrder(i, j);
    } else if j < 10000 {
      StrLessLonger(Number(1000), Number(j), '0');
      NamesInOrder(1000, j);
    } else if i < 10000 {
      StrLessLonger(Number(1000), Number(i), '0');
      NamesInOrder(i, 1000);
      NumbersDiffer(i, 1000);
    } else {
      StrLessSelf(Number(10000));
    }
  }

  lemma StrLessSelf(a: string)
    ensures !StrLess(a, a)
  {
  }

  /** `atoi` on digits */
  function Atoi(s: string): int {
    if s == [] then 0 else 10 * Atoi(s[..|s| - 1]) + (s[|s| - 1] as int - 48)
  }

  lemma AtoiReadsNumber(i: nat)
    requires i <= 10000
    ensures Atoi(Number(i)) == i
  {
    if i < 10000 {
      AtoiFour(i);
    } else {
      TenThousand();
      AtoiFour(1000);
      assert (Number(1000) + ['0'])[..4] == Number(1000);
    }
  }

  lemma AtoiFour(i: nat)
    requires i < 10000
    ensures Atoi(Number(i)) == i
  {
    Decimal(i);
    var s := Number(i);
    assert s[..4][..3] == s[..3] && s[..3][..2] == s[..2] && s[..2][..1] == s[..1] && s[..1][..0] == [] && s[..4] == s;
    assert Atoi(s[..1]) == i / 1000;
    assert Atoi(s[..2]) == 10 * (i / 1000) + i / 100 % 10;
    assert Atoi(s[..3]) == 100 * (i / 1000) + 10 * (i / 100 % 10) + i / 10 % 10;
  }

  /** The number that the search for the greatest name finds among the files 1 to k. */
  function Greatest(k: nat): nat {
    if k < 10000 then k else 9999
  }

  // ---------- The stream of everything saved ----------

  /** The files in order of age, file 1 first; what they hold together, oldest first. */
  function Stream(s: seq<string>): string {
    if s == [] then "" else Stream(s[1..]) + s[0]
  }

  /** How many files a number of files allows: at least the one that is written, and no name past 10000 is ever made. */
  function Capacity(fileNum: int): (c: nat)
    ensures 1 <= c <= 10000
  {
    if fileNum < 1 then 1 else if fileNum < 10000 then fileNum else 10000
  }

  /** `log_save` on the files 1 to |s|; `full` says that the first one has reached its size. */
  function Saved(s: seq<string>, buf: string, full: bool, fileNum: int): (r: seq<string>)
    requires |s| <= Capacity(fileNum)
    ensures 1 <= |r| <= Capacity(fileNum)
  {
    if s == [] then [buf]
    else if full && fileNum >= 1 then [buf] + (if |s| < Capacity(fileNum) then s else s[..|s| - 1])
    else [s[0] + buf] + s[1..]
  }

  lemma {:induction false} StreamDropsOldest(s: seq<string>)
    requires s != []
    ensures Stream(s) == s[|s| - 1] + Stream(s[..|s| - 1])
  {
    if |s| == 1 {
      assert s[1..] == [] && s[..0] == [];
      assert "" + s[0] == s[0] == s[0] + "";
    } else {
      StreamDropsOldest(s[1..]);
      var front := s[..|s| - 1];
      assert s[1..][..|s| - 2] == front[1..];
      assert Stream(s) == (s[|s| - 1] + Stream(front[1..])) + s[0];
    }
  }

  lemma StreamCons(x: string, t: seq<string>)
    ensures Stream([x] + t) == Stream(t) + x
  {
    assert ([x] + t)[1..] == t;
  }

  lemma Joined(a: string, b: string, c: string)
    ensures a + (b + c) == (a + b) + c && "" + a == a
  {
  }

  /** Dropping the oldest file and starting a new one. */
  lemma RotatedStream(s: seq<string>, buf: string)
    requires s != []
    ensures s[|s| - 1] + Stream([buf] + s[..|s| - 1]) == Stream(s) + buf
  {
    hide Stream;
    var front := s[..|s| - 1];
    StreamDropsOldest(s);
    StreamCons(buf, front);
    Joined(s[|s| - 1], Stream(front), buf);
  }

  /** Going on with the file that is written. */
  lemma ExtendedStream(s: seq<string>, buf: string)
    requires s != []
    ensures Stream([s[0] + buf] + s[1..]) == Stream(s) + buf
  {
    hide Stream;
    assert s == [s[0]] + s[1..];
    StreamCons(s[0], s[1..]);
    StreamCons(s[0] + buf, s[1..]);
    Joined(Stream(s[1..]), s[0], buf);
  }

  /** A save appends to the stream; only when the files are at their limit, the oldest one is lost. */
  lemma SavedStream(s: seq<string>, buf: string, full: bool, fileNum: int)
    requires |s| <= Capacity(fileNum)
    ensures var lost := if s != [] && full && fileNum >= 1 && |s| == Capacity(fileNum) then s[|s| - 1] else "";
      lost + Stream(Saved(s, buf, full, fileNum)) == Stream(s) + buf
  {
    hide Stream, Capacity;
    Joined(Stream(s) + buf, "", "");
    StreamCons(buf, s);
    if s == [] {
      assert [buf] + s == [buf];
    } else {
      RotatedStream(s, buf);
      ExtendedStream(s, buf);
    }
  }

  /** `st_size` in an `int` of 32 bits: the number in that range that differs by a multiple of 2^32 */
  function AsInt(size: nat): (r: int)
    ensures -0x8000_0000 <= r < 0x8000_0000 && (size - r) % 0x1_0000_0000 == 0
    ensures size < 0x8000_0000 ==> r == size
  {
    var low := size % 0x1_0000_0000;
    if low < 0x8000_0000 then low else low - 0x1_0000_0000
  }

  datatype Save = Save(buf: string, full: bool)

  ghost function Run(s: seq<string>, saves: seq<Save>, fileNum: int): (r: seq<string>)
    requires |s| <= Capacity(fileNum)
    ensures |r| <= Capacity(fileNum)
  {
    if saves == [] then s
    else
      var last := |saves| - 1;
      Saved(Run(s, saves[..last], fileNum), saves[last].buf, saves[last].full, fileNum)
  }

  ghost function Written(saves: seq<Save>): string {
    if saves == [] then "" else Written(saves[..|saves| - 1]) + saves[|saves| - 1].buf
  }

  ghost predicate Suffix(a: string, b: string) {
    |a| <= |b| && b[|b| - |a|..] == a
  }

  /** Over every run the files hold a suffix of everything saved, in no more files than allowed. */
  lemma {:induction false} RunKeepsSuffix(s: seq<string>, saves: seq<Save>, fileNum: int)
    requires |s| <= Capacity(fileNum)
    ensures Suffix(Stream(Run(s, saves, fileNum)), Stream(s) + Written(saves))
  {
    if saves == [] {
      assert Stream(s) + "" == Stream(s);
    } else {
      hide Stream, Saved, Suffix;
      var last := |saves| - 1;
      RunKeepsSuffix(s, saves[..last], fileNum);
      SaveKeepsSuffix(Run(s, saves[..last], fileNum), Stream(s) + Written(saves[..last]), saves[last], fileNum);
      assert (Stream(s) + Written(saves[..last])) + saves[last].buf == Stream(s) + Written(saves);
    }
  }

  lemma SaveKeepsSuffix(s: seq<string>, all: string, save: Save, fileNum: int)
    requires |s| <= Capacity(fileNum) && Suffix(Stream(s), all)
    ensures Suffix(Stream(Saved(s, save.buf, save.full, fileNum)), all + save.buf)
  {
    hide Stream, Saved, Suffix;
    var lost := if s != [] && save.full && fileNum >= 1 && |s| == Capacity(fileNum) then s[|s| - 1] else "";
    SavedStream(s, save.buf, save.full, fileNum);
    SuffixAppend(Stream(s), all, save.buf);
    SuffixDrop(lost, Stream(Saved(s, save.buf, save.full, fileNum)), all + save.buf);
  }

  // ---------- Runs in which the size decides ----------

  /** The first file has reached its size. */
  predicate Full(s: seq<string>, fileSize: int) {
    s != [] && AsInt(|s[0]|) >= fileSize
  }

  /** The saves of these texts, with what the size of the first file says at each of them. */
  ghost function Marked(s: seq<string>, bufs: seq<string>, fileSize: int, fileNum: int): (r: seq<Save>)
    requires |s| <= Capacity(fileNum)
  {
    if bufs == [] then []
    else
      var before := Marked(s, bufs[..|bufs| - 1], fileSize, fileNum);
      before + [Save(bufs[|bufs| - 1], Full(Run(s, before, fileNum), fileSize))]
  }

  /** The files after these texts have been saved. */
  ghost function Logged(s: seq<string>, bufs: seq<string>, fileSize: int, fileNum: int): (r: seq<string>)
    requires |s| <= Capacity(fileNum)
    ensures |r| <= Capacity(fileNum)
  {
    Run(s, Marked(s, bufs, fileSize, fileNum), fileNum)
  }

  lemma LoggedStep(s: seq<string>, bufs: seq<string>, fileSize: int, fileNum: int)
    requires |s| <= Capacity(fileNum) && bufs != []
    ensures var before := Logged(s, bufs[..|bufs| - 1], fileSize, fileNum);
      Logged(s, bufs, fileSize, fileNum) == Saved(before, bufs[|bufs| - 1], Full(before, fileSize), fileNum)
  {
    var marked := Marked(s, bufs[..|bufs| - 1], fileSize, fileNum);
    var last := Save(bufs[|bufs| - 1], Full(Run(s, marked, fileNum), fileSize));
    assert (marked + [last])[..|marked|] == marked;
  }

  /** A file ends with one of these texts, and had not reached its size before that text came. */
  ghost predicate Grown(file: string, bufs: seq<string>, fileSize: int) {
    exists b :: b in bufs && |b| <= |file| && file[|file| - |b|..] == b
                && (file == b || AsInt(|file| - |b|) < fileSize)
  }

  /**
   * Over every run from no files: a file that is no longer the first has reached its size, and where the
   * limit allows any file, none had reached it before its last text came.
   */
  lemma {:induction false} LoggedFilesAreFull(bufs: seq<string>, fileSize: int, fileNum: int)
    ensures var r := Logged([], bufs, fileSize, fileNum);
      && (forall i :: 1 <= i < |r| ==> AsInt(|r[i]|) >= fileSize)
      && (fileNum >= 1 ==> forall i :: 0 <= i < |r| ==> Grown(r[i], bufs, fileSize))
  {
    hide AsInt, Logged, Grown;
    if bufs == [] {
      LoggedNothing(fileSize, fileNum);
    } else {
      var front, buf := bufs[..|bufs| - 1], bufs[|bufs| - 1];
      var before := Logged([], front, fileSize, fileNum);
      LoggedFilesAreFull(front, fileSize, fileNum);
      LoggedStep([], bufs, fileSize, fileNum);
      assert bufs == front + [buf] && "" + buf == buf;
      forall i | 0 <= i < |before|
        ensures fileNum >= 1 ==> Grown(before[i], bufs, fileSize)
      {
        if fileNum >= 1 {
          GrownMore(before[i], front, buf, fileSize);
        }
      }
      GrownNow("", buf, bufs, fileSize);
      if before != [] && !Full(before, fileSize) {
        GrownNow(before[0], buf, bufs, fileSize);
      }
    }
  }

  lemma LoggedNothing(fileSize: int, fileNum: int)
    ensures Logged([], [], fileSize, fileNum) == []
  {
  }

  lemma GrownMore(file: string, front: seq<string>, buf: string, fileSize: int)
    requires Grown(file, front, fileSize)
    ensures Grown(file, front + [buf], fileSize)
  {
  }

  lemma GrownNow(file: string, buf: string, bufs: seq<string>, fileSize: int)
    requires buf in bufs && (file == "" || AsInt(|file|) < fileSize)
    ensures Grown(file + buf, bufs, fileSize)
  {
    hide AsInt;
    assert (file + buf)[|file|..] == buf;
  }

  lemma SuffixAppend(a: string, b: string, c: string)
    requires Suffix(a, b)
    ensures Suffix(a + c, b + c)
  {
  }

  lemma SuffixDrop(l: string, a: string, b: string)
    requires Suffix(l + a, b)
    ensures Suffix(a, b)
  {
    assert b[|b| - |l + a|..][|l|..] == b[|b| - |a|..];
  }

  // ---------- The files on disk ----------

  /** The files are numbered from `first` on and hold `s`. */
  ghost predicate Holds(files: map<nat, string>, s: seq<string>, first: nat) {
    && (forall i :: i in files <==> first <= i < first + |s|)
    && (forall i :: first <= i < first + |s| ==> i in files && files[i] == s[i - first])
  }

  lemma FirstFile(files: map<nat, string>, s: seq<string>)
    requires Holds(files, s, 1)
    ensures 1 in files <==> s != []
    ensures s != [] ==> files[1] == s[0]
  {
  }

  /** Opening file 1, which may create it, and appending to it. */
  lemma Appended(files: map<nat, string>, s: seq<string>, first: nat, buf: string)
    requires 1 <= first <= 2 && Holds(files, s, first)
    ensures Holds(files[1 := (if 1 in files then files[1] else "") + buf],
                  if first == 1 && s != [] then [s[0] + buf] + s[1..] else [buf] + s, 1)
  {
  }

  /**
   * A new first file holds `buf`, and behind it are the files as they were, each under the next number;
   * there is none beyond the limit or file 10000.
   */
  ghost predicate Rotated(before: map<nat, string>, after: map<nat, string>, buf: string, fileNum: int) {
    && 1 in after && after[1] == buf
    && forall i: nat :: i != 1 ==>
         (i in after <==> i >= 2 && i - 1 in before && i <= fileNum && i <= 10000)
         && (i in after ==> after[i] == before[i - 1])
  }

  /** What a save does to each file. */
  lemma SavedFiles(before: map<nat, string>, after: map<nat, string>, s: seq<string>, buf: string,
                   fileSize: int, fileNum: int)
    requires |s| <= Capacity(fileNum) && Holds(before, s, 1)
    requires Holds(after, Saved(s, buf, Full(s, fileSize), fileNum), 1)
    ensures 1 !in before ==> after == map[1 := buf]
    ensures 1 in before && (AsInt(|before[1]|) < fileSize || fileNum < 1) ==> after == before[1 := before[1] + buf]
    ensures 1 in before && AsInt(|before[1]|) >= fileSize && fileNum >= 1 ==> Rotated(before, after, buf, fileNum)
  {
    hide AsInt;
  }

  /** The text of file `i`. */
  function At(s: seq<string>, i: nat): string {
    if 1 <= i <= |s| then s[i - 1] else ""
  }

  class LogStore {
    /** The log files of the directory by number, and the number of the file that `m_fp` writes to. */
    var files: map<nat, string>
    var fp: Option<nat>
    const fileSize: int
    const fileNum: int
    ghost var content: seq<string>

    ghost predicate Valid()
      reads this
    {
      Holds(files, content, 1) && |content| <= Capacity(fileNum) && (fp.Some? ==> fp == Some(1) && content != [])
    }

    /** Starts on a contiguous set of files that is not over the limit. */
    constructor (found: seq<string>, fileSize: int, fileNum: int)
      requires |found| <= Capacity(fileNum)
      ensures Valid() && content == found && this.fileSize == fileSize && this.fileNum == fileNum
    {
      this.fileSize, this.fileNum, fp := fileSize, fileNum, None;
      files, content := map i: nat {:trigger At(found, i)} | 1 <= i <= |found| :: At(found, i), found;
    }

    /**
     * `mv`; whether it overwrites a file. Moving a missing file does nothing, and an open file stays open
     * under its new name.
     */
    method Move(source: nat, target: nat) returns (clash: bool)
      requires source != target && fp != Some(target)
      modifies `files, `fp
      ensures fp == if old(fp) == Some(source) && source in old(files) then Some(target) else old(fp)
      ensures files == if source in old(files) then (old(files) - {source})[target := old(files)[source]]
                       else old(files)
      ensures clash <==> source in old(files) && target in old(files)
    {
      clash := source in files && target in files;
      if source in files {
        files := (files - {source})[target := files[source]];
        if fp == Some(source) {
          fp := Some(target);
        }
      }
    }

    /** `get_log_file_num`: the listing of the directory may come in any order. */
    method GetLogFileNum(listing: seq<nat>) returns (n: nat)
      requires Valid() && forall i :: i in listing <==> i in files
      ensures n == Greatest(|content|)
    {
      hide StrLess, Number, Atoi;
      var maxFile := "";
      ghost var m := 0;
      for t := 0 to |listing|
        invariant t == 0 ==> maxFile == "" && m == 0
        invariant t > 0 ==> m in listing && maxFile == Number(m)
        invariant forall i :: 0 <= i < t ==> Rank(listing[i]) <= Rank(m)
      {
        assert listing[t] in files && (t > 0 ==> m in files);
        NumberNotEmpty(listing[t]);
        if t > 0 {
          RankIsOrder(m, listing[t]);
        }
        if StrLess(maxFile, Number(listing[t])) {
          maxFile := Number(listing[t]);
          m := listing[t];
        }
      }
      if maxFile == "" {
        if |listing| > 0 {
          NumberNotEmpty(m);
        }
        assert |content| > 0 ==> 1 in files && 1 in listing;
        return 0;
      }
      assert m in files;
      assert Greatest(|content|) in files && Greatest(|content|) in listing;
      AtoiReadsNumber(m);
      n := Atoi(maxFile);
    }

    /** The descending loop: moves files 1 to n up by one, and says whether a file was overwritten. */
    method Shift(n: nat, ghost s: seq<string>) returns (overwrites: bool)
      requires Holds(files, s, 1) && 1 <= n <= |s| <= n + 1 && fp == None
      modifies `files, `fp
      ensures fp == None
      ensures Holds(files, s[..n], 2)
      ensures overwrites <==> |s| == n + 1
    {
      overwrites := false;
      var i := n;
      while i > 0
        invariant 0 <= i <= n && fp == None
        invariant i == n ==> Holds(files, s, 1)
        invariant i < n ==> forall j :: j in files <==> 1 <= j <= i || i + 2 <= j <= n + 1
        invariant forall j :: 1 <= j <= i ==> j in files && files[j] == s[j - 1]
        invariant i < n ==> forall j :: i + 2 <= j <= n + 1 ==> j in files && files[j] == s[j - 2]
        invariant overwrites <==> i < n && |s| == n + 1
      {
        var r := Move(i, i + 1);
        overwrites := overwrites || r;
        i := i - 1;
      }
    }

    /** The part of `log_save` for a full first file: drops the last file at the limit and moves the others up. */
    method Rotate(listing: seq<nat>) returns (overwrites: bool)
      requires Valid() && fp == None && forall i :: i in listing <==> i in files
      modifies `files, `fp
      ensures fp == None
      ensures content == [] || fileNum < 1 ==> Holds(files, content, 1)
      ensures content != [] && fileNum >= 1 ==>
                Holds(files, if |content| < Capacity(fileNum) then content else content[..|content| - 1], 2)
      ensures overwrites <==> |content| == 10000
    {
      overwrites := false;
      var n: int := GetLogFileNum(listing);
      ghost var kept := content;
      if n >= fileNum {
        if fileNum >= 0 {
          files := files - {fileNum};
        }
        if fileNum >= 1 {
          kept := content[..|content| - 1];
        }
        n := fileNum - 1;
      }
      assert Holds(files, kept, 1);
      if n > 0 {
        overwrites := Shift(n, kept);
      }
    }

    /**
     * `log_save`. `stale` is what is left in the size when there is no file 1 to ask; the result says
     * whether the shift overwrote a file. That happens only behind file 9999, where the greatest name
     * is no longer that of the greatest number.
     */
    method LogSave(buf: string, stale: int, listing: seq<nat>) returns (overwrites: bool)
      requires Valid() && forall i :: i in listing <==> i in files
      modifies this
      ensures Valid() && fp == Some(1)
      ensures content == Saved(old(content), buf, Full(old(content), fileSize), fileNum)
      ensures overwrites <==> Full(old(content), fileSize) && |old(content)| == 10000
      ensures 1 !in old(files) ==> files == map[1 := buf]
      ensures 1 in old(files) && (AsInt(|old(files)[1]|) < fileSize || fileNum < 1) ==>
                files == old(files)[1 := old(files)[1] + buf]
      ensures 1 in old(files) && AsInt(|old(files)[1]|) >= fileSize && fileNum >= 1 ==>
                Rotated(old(files), files, buf, fileNum)
    {
      hide Holds, AsInt, Capacity, Rotated;
      overwrites := false;
      FirstFile(files, content);
      var size := if 1 in files then AsInt(|files[1]|) else stale;
      ghost var kept, first := content, 1;
      if size >= fileSize {
        fp := None;
        overwrites := Rotate(listing);
        if content != [] && fileNum >= 1 {
          kept, first := if |content| < Capacity(fileNum) then content else content[..|content| - 1], 2;
        }
      }
      Appended(files, kept, first, buf);
      assert [buf] + [] == [buf];
      ghost var before := files;
      if fp == None {
        fp := Some(1);
        files := files[1 := if 1 in files then files[1] else ""];
      }
      files := files[fp.value := files[fp.value] + buf];
      assert files == before[1 := (if 1 in before then before[1] else "") + buf];
      SavedFiles(old(files), files, content, buf, fileSize, fileNum);
      content := Saved(content, buf, Full(content, fileSize), fileNum);
    }
  }

  lemma NumberNotEmpty(i: nat)
    ensures |Number(i)| > 0 && StrLess("", Number(i))
  {
  }
}
