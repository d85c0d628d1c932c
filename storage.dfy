/**
 * Where `downloadAndSaveAsHTML` stores a page: `aws_html/YYYY/MM/DD/` followed
 * by the URL without its `https://` prefix, with `index.html` as the file name
 * of a URL that ends in `/`. Paths are sequences of `/`-separated segments;
 * `filepath.Join`, `filepath.Dir` and `filepath.Base` are modelled on them.
 * The date is a parameter (the source reads the local clock), and so are the
 * outcomes of creating the directory, fetching, reading and writing.
 */
module Storage {
  import opened Wrappers
  import opened Strings
  import opened Fetch
  import opened UrlFilter

  const BaseDir: string := "aws_html"
  const IndexFile: string := "index.html"

  /** A path as its segments: `a/b/c` is `["a", "b", "c"]`. */
  type Path = seq<string>

  datatype Date = Date(year: nat, month: nat, day: nat)

  // ---------------------------------------------------------------------------
  // Dates as directory names (time.Format with "2006", "01", "02")
  // ---------------------------------------------------------------------------

  predicate IsDigit(c: char) { '0' <= c <= '9' }

  predicate AllDigits(s: string)
  {
    forall i :: 0 <= i < |s| ==> IsDigit(s[i])
  }

  function DigitChar(d: nat): (c: char)
    requires d < 10
    ensures IsDigit(c)
  {
    ('0' as int + d) as char
  }

  function DigitValue(c: char): nat
    requires IsDigit(c)
  {
    (c as int - '0' as int) as nat
  }

  /** Decimal digits of `n`, without leading zeros. */
  function Digits(n: nat): (r: string)
    ensures 1 <= |r| && AllDigits(r)
  {
    if n < 10 then [DigitChar(n)] else Digits(n / 10) + [DigitChar(n % 10)]
  }

  function Zeros(k: nat): (r: string)
    ensures |r| == k
  {
    if k == 0 then [] else ['0'] + Zeros(k - 1)
  }

  /** `n` in decimal, padded on the left with zeros to at least `width` characters. */
  function Pad(n: nat, width: nat): string
  {
    var ds := Digits(n);
    (if |ds| < width then Zeros(width - |ds|) else []) + ds
  }

  /** The number a string of decimal digits denotes. */
  function Value(s: string): nat
    requires AllDigits(s)
  {
    if s == [] then 0 else 10 * Value(s[..|s| - 1]) + DigitValue(s[|s| - 1])
  }

  function Pow10(k: nat): (r: nat)
    ensures r >= 1
  {
    if k == 0 then 1 else 10 * Pow10(k - 1)
  }

  lemma {:induction false} DigitsValue(n: nat)
    ensures Value(Digits(n)) == n
  {
    if n < 10 {
      assert Digits(n)[..0] == [];
    } else {
      DigitsValue(n / 10);
      var ds := Digits(n);
      assert ds[..|ds| - 1] == Digits(n / 10);
    }
  }

  lemma {:induction false} DigitsWidth(n: nat, k: nat)
    requires 1 <= k && n < Pow10(k)
    ensures |Digits(n)| <= k
  {
    if n >= 10 {
      DigitsWidth(n / 10, k - 1);
    }
  }

  /** A leading zero does not change the value. */
  lemma {:induction false} LeadingZero(s: string)
    requires AllDigits(s)
    ensures AllDigits(['0'] + s)
    ensures Value(['0'] + s) == Value(s)
    decreases |s|
  {
    var z := ['0'] + s;
    if s == [] {
      assert z[..0] == [];
    } else {
      var n := |s| - 1;
      assert z[..|z| - 1] == ['0'] + s[..n];
      assert z[|z| - 1] == s[n];
      LeadingZero(s[..n]);
    }
  }

  lemma {:induction false} LeadingZeros(k: nat, s: string)
    requires AllDigits(s)
    ensures AllDigits(Zeros(k) + s)
    ensures Value(Zeros(k) + s) == Value(s)
  {
    if k > 0 {
      LeadingZeros(k - 1, s);
      assert Zeros(k) + s == ['0'] + (Zeros(k - 1) + s);
      LeadingZero(Zeros(k - 1) + s);
    } else {
      assert Zeros(k) + s == s;
    }
  }

  /** A padded number reads back as itself. */
  lemma PadValue(n: nat, width: nat)
    ensures AllDigits(Pad(n, width))
    ensures Value(Pad(n, width)) == n
  {
    var ds := Digits(n);
    DigitsValue(n);
    if |ds| < width {
      LeadingZeros(width - |ds|, ds);
    } else {
      assert Pad(n, width) == ds;
    }
  }

  /** A padded number is at least `width` wide, and exactly that wide when it is below `10^width`. */
  lemma PadWidth(n: nat, width: nat)
    ensures |Pad(n, width)| >= width && |Pad(n, width)| >= 1
    ensures 1 <= width && n < Pow10(width) ==> |Pad(n, width)| == width
  {
    if 1 <= width && n < Pow10(width) {
      DigitsWidth(n, width);
    }
  }

  /** The date directory: `aws_html`, the year in four digits, the month and the day in two. */
  function DatePath(d: Date): Path
  {
    [BaseDir, Pad(d.year, 4), Pad(d.month, 2), Pad(d.day, 2)]
  }

  /** For calendar dates the directory names are fixed-width and give the date back. */
  lemma DatePathReadsBack(d: Date)
    requires d.year < 10000 && 1 <= d.month <= 12 && 1 <= d.day <= 31
    ensures var p := DatePath(d);
      && |p| == 4 && p[0] == BaseDir
      && |p[1]| == 4 && |p[2]| == 2 && |p[3]| == 2
      && AllDigits(p[1]) && AllDigits(p[2]) && AllDigits(p[3])
      && Value(p[1]) == d.year && Value(p[2]) == d.month && Value(p[3]) == d.day
  {
    assert Pow10(4) == 10000 && Pow10(2) == 100;
    PadValue(d.year, 4);
    PadValue(d.month, 2);
    PadValue(d.day, 2);
    PadWidth(d.year, 4);
    PadWidth(d.month, 2);
    PadWidth(d.day, 2);
  }

  /** Two dates share a directory only if they are the same date. */
  lemma DatePathInjective(d: Date, e: Date)
    requires d.year < 10000 && 1 <= d.month <= 12 && 1 <= d.day <= 31
    requires e.year < 10000 && 1 <= e.month <= 12 && 1 <= e.day <= 31
    ensures DatePath(d) == DatePath(e) <==> d == e
  {
    DatePathReadsBack(d);
    DatePathReadsBack(e);
  }

  // ---------------------------------------------------------------------------
  // Splitting and joining on '/'
  // ---------------------------------------------------------------------------

  /** strings.Split(s, "/"): always at least one part; no part holds a '/'. */
  function Split(s: string): (r: seq<string>)
    ensures |r| >= 1
  {
    if s == [] then [""]
    else
      var rest := Split(s[1..]);
      if s[0] == '/' then [""] + rest else [[s[0]] + rest[0]] + rest[1..]
  }

  /** strings.Join(segs, "/"). */
  function Join(segs: seq<string>): string
  {
    if segs == [] then ""
    else if |segs| == 1 then segs[0]
    else segs[0] + "/" + Join(segs[1..])
  }

  lemma {:induction false} JoinSnoc(segs: seq<string>, last: string)
    requires |segs| >= 1
    ensures Join(segs + [last]) == Join(segs) + "/" + last
    decreases |segs|
  {
    if |segs| == 1 {
      assert segs + [last] == [segs[0], last];
    } else {
      assert (segs + [last])[1..] == segs[1..] + [last];
      JoinSnoc(segs[1..], last);
    }
  }

  lemma {:induction false} SplitPrepend(seg: string, s: string)
    requires '/' !in seg
    ensures Split(seg + s) == [seg + Split(s)[0]] + Split(s)[1..]
    decreases |seg|
  {
    if seg == [] {
      assert seg + s == s;
      assert seg + Split(s)[0] == Split(s)[0];
      assert [Split(s)[0]] + Split(s)[1..] == Split(s);
    } else {
      var u := seg + s;
      assert u[0] == seg[0] && u[0] != '/';
      assert u[1..] == seg[1..] + s;
      SplitPrepend(seg[1..], s);
      var rest := Split(u[1..]);
      assert Split(u) == [[u[0]] + rest[0]] + rest[1..];
      assert [seg[0]] + (seg[1..] + Split(s)[0]) == seg + Split(s)[0];
    }
  }

  lemma SplitNoSlash(s: string)
    requires '/' !in s
    ensures Split(s) == [s]
  {
    SplitPrepend(s, "");
    assert s + "" == s;
  }

  lemma SplitSlash(s: string)
    ensures Split("/" + s) == [""] + Split(s)
  {
    var u := "/" + s;
    assert u[0] == '/' && u[1..] == s;
  }

  /** Splitting a join of slash-free segments gives the segments back. */
  lemma {:induction false} SplitJoin(segs: seq<string>)
    requires |segs| >= 1
    requires forall i :: 0 <= i < |segs| ==> '/' !in segs[i]
    ensures Split(Join(segs)) == segs
    decreases |segs|
  {
    if |segs| == 1 {
      SplitNoSlash(segs[0]);
    } else {
      SplitJoin(segs[1..]);
      var rest := "/" + Join(segs[1..]);
      assert Join(segs) == segs[0] + rest;
      SplitSlash(Join(segs[1..]));
      SplitPrepend(segs[0], rest);
      assert segs[0] + "" == segs[0];
      assert segs == [segs[0]] + segs[1..];
    }
  }

  /** Splitting at a '/' splits the parts on either side of it. */
  lemma {:induction false} SplitConcat(a: string, b: string)
    ensures Split(a + "/" + b) == Split(a) + Split(b)
    decreases |a|
  {
    var u := a + "/" + b;
    if a == [] {
      assert u == "/" + b;
      SplitSlash(b);
    } else {
      assert u[0] == a[0] && u[1..] == a[1..] + "/" + b;
      SplitConcat(a[1..], b);
      if a[0] != '/' {
        var rest := Split(a[1..]);
        assert (rest + Split(b))[0] == rest[0];
        assert (rest + Split(b))[1..] == rest[1..] + Split(b);
      }
    }
  }

  // ---------------------------------------------------------------------------
  // filepath.Clean, Join, Dir and Base on segments
  // ---------------------------------------------------------------------------

  /** A segment that cleaning leaves alone and that names a real entry. */
  predicate Plain(seg: string)
  {
    seg != "" && seg != "." && seg != ".." && '/' !in seg
  }

  /** No empty, `.` or `..` segment: what cleaning leaves alone. */
  predicate Tidy(segs: seq<string>)
  {
    forall i :: 0 <= i < |segs| ==> segs[i] != "" && segs[i] != "." && segs[i] != ".."
  }

  /**
   * filepath.Clean on the segments of a path: empty segments (repeated or
   * trailing slashes) and `.` are dropped, and `..` removes the segment
   * before it. A `..` with nothing before it to remove is kept in a relative
   * path and dropped in a rooted one (`rooted`: the path starts with `/`).
   */
  function CleanFrom(rooted: bool, segs: seq<string>): (r: Path)
    ensures |r| <= |segs|
  {
    if segs == [] then []
    else
      var init, last := CleanFrom(rooted, segs[..|segs| - 1]), segs[|segs| - 1];
      if last == "" || last == "." then init
      else if last != ".." then init + [last]
      else if init != [] && init[|init| - 1] != ".." then init[..|init| - 1]
      else if rooted then init
      else init + [last]
  }

  /** Cleaning a relative path: every path `downloadAndSaveAsHTML` joins is relative to `aws_html`'s parent. */
  function Clean(segs: seq<string>): Path
  {
    CleanFrom(false, segs)
  }

  /** The segments of a `/`-separated string, cleaned. */
  function Segments(s: string): Path
  {
    Clean(Split(s))
  }

  /** filepath.Join(dir, elem): the segments of both, cleaned. */
  function JoinPath(dir: Path, elem: string): Path
  {
    Clean(dir + Split(elem))
  }

  /**
   * filepath.Dir: everything up to the last '/', cleaned as a rooted path when
   * it starts with '/'; no '/' at all gives `.`, which has no segments.
   */
  function Dir(t: string): Path
  {
    match LastIndexOf(t, '/')
    case None => []
    case Some(i) => CleanFrom(t[0] == '/', Split(t[..i + 1]))
  }

  function StripSlashes(t: string): (r: string)
    ensures |r| <= |t| && r == t[..|r|]
    ensures r == [] || r[|r| - 1] != '/'
  {
    if t != [] && t[|t| - 1] == '/' then StripSlashes(t[..|t| - 1]) else t
  }

  /** filepath.Base: the last element after trailing slashes are removed; `.` for "", `/` for all slashes. */
  function Base(t: string): string
  {
    if t == [] then "."
    else
      var s := StripSlashes(t);
      if s == [] then "/"
      else
        match LastIndexOf(s, '/')
        case None => s
        case Some(i) => s[i + 1..]
  }

  /** The last '/' of `a + "/" + b`, when `b` holds none, is the one between them. */
  lemma LastSlashBefore(a: string, b: string)
    requires '/' !in b
    ensures LastIndexOf(a + "/" + b, '/') == Some(|a|)
  {
    var s := a + "/" + b;
    assert s[|a|] == '/';
    assert '/' in s;
    var v := LastIndexOf(s, '/').value;
    forall k | v < k < |s| ensures s[k] != '/' {
      assert s[k] == s[v + 1..][k - v - 1];
    }
    forall k | |a| < k < |s| ensures s[k] != '/' {
      assert s[k] == b[k - |a| - 1];
    }
  }

  // ---------------------------------------------------------------------------
  // The storage location
  // ---------------------------------------------------------------------------

  /** The directory that is created and the file that is written. */
  datatype Location = Location(dir: Path, file: Path)

  /**
   * The joins of `downloadAndSaveAsHTML` under the date directory `root`, for
   * the URL `t` with its scheme already trimmed.
   */
  function Place(root: Path, t: string): Location
  {
    if HasSuffix(t, "/") then
      var dir := JoinPath(root, t);
      Location(dir, JoinPath(dir, IndexFile))
    else
      var dir := Clean(root + Dir(t));
      Location(dir, JoinPath(dir, Base(t)))
  }

  /** The path computation of `downloadAndSaveAsHTML` for the date `d` and the page `url`. */
  function Locate(d: Date, url: string): Location
  {
    Place(DatePath(d), TrimPrefix(url, Secure))
  }

  predicate AllPlain(segs: seq<string>)
  {
    forall i :: 0 <= i < |segs| ==> Plain(segs[i])
  }

  lemma DigitStringPlain(s: string)
    requires |s| >= 1 && AllDigits(s)
    ensures Plain(s)
  {
    assert IsDigit(s[0]);
    forall j | 0 <= j < |s| ensures s[j] != '/' {
      assert IsDigit(s[j]);
    }
  }

  lemma DatePathPlain(d: Date)
    ensures AllPlain(DatePath(d))
  {
    PadValue(d.year, 4);
    PadValue(d.month, 2);
    PadValue(d.day, 2);
    PadWidth(d.year, 4);
    PadWidth(d.month, 2);
    PadWidth(d.day, 2);
    DigitStringPlain(Pad(d.year, 4));
    DigitStringPlain(Pad(d.month, 2));
    DigitStringPlain(Pad(d.day, 2));
    assert Plain(BaseDir);
  }

  /** A `/`-separated string none of whose segments is `..`. */
  predicate NoParentRefs(t: string)
  {
    ".." !in Split(t)
  }

  lemma PlainTidy(segs: seq<string>)
    requires AllPlain(segs)
    ensures Tidy(segs) && ".." !in segs
  {
    forall i | 0 <= i < |segs| ensures segs[i] != ".." {
      assert Plain(segs[i]);
    }
  }

  lemma TidyAppend(a: seq<string>, b: seq<string>)
    requires Tidy(a) && Tidy(b)
    ensures Tidy(a + b) && ".." !in a + b
  {
    forall i | 0 <= i < |a + b| ensures (a + b)[i] != "" && (a + b)[i] != "." && (a + b)[i] != ".." {
      if i < |a| {
        assert (a + b)[i] == a[i];
      } else {
        assert (a + b)[i] == b[i - |a|];
      }
    }
  }

  /** A tail with no `..` is cleaned on its own: it cannot remove anything before it. */
  lemma {:induction false} CleanAppend(a: seq<string>, b: seq<string>)
    requires ".." !in b
    ensures Clean(a + b) == Clean(a) + Clean(b)
    decreases |b|
  {
    if b == [] {
      assert a + b == a;
    } else {
      var n := |b| - 1;
      assert (a + b)[..|a + b| - 1] == a + b[..n];
      assert (a + b)[|a + b| - 1] == b[n] && b[n] in b;
      assert forall x :: x in b[..n] ==> x in b;
      CleanAppend(a, b[..n]);
    }
  }

  /** A path with no `..` cleans to a tidy path, the same whether it is rooted or not. */
  lemma {:induction false} CleanTidy(rooted: bool, segs: seq<string>)
    requires ".." !in segs
    ensures Tidy(CleanFrom(rooted, segs)) && ".." !in CleanFrom(rooted, segs)
    ensures CleanFrom(rooted, segs) == Clean(segs)
  {
    if segs != [] {
      var n := |segs| - 1;
      assert segs[n] in segs;
      assert forall x :: x in segs[..n] ==> x in segs;
      CleanTidy(rooted, segs[..n]);
      var init := CleanFrom(rooted, segs[..n]);
      if segs[n] != "" && segs[n] != "." {
        TidyAppend(init, [segs[n]]);
      }
    }
  }

  /** Cleaning leaves a tidy path alone. */
  lemma {:induction false} CleanPlain(segs: seq<string>)
    requires Tidy(segs)
    ensures Clean(segs) == segs
  {
    if segs != [] {
      CleanPlain(segs[..|segs| - 1]);
    }
  }

  /** Joining a cleaned directory with an element that has no `..` keeps the directory as a prefix. */
  lemma JoinKeepsDir(dir: Path, elem: string)
    requires Clean(dir) == dir && NoParentRefs(elem)
    ensures JoinPath(dir, elem) == dir + Segments(elem)
  {
    CleanAppend(dir, Split(elem));
  }

  /** The name `Base` gives is at most one segment once cleaned. */
  lemma BaseIsOneSegment(t: string)
    ensures |Segments(Base(t))| <= 1
  {
    var b := Base(t);
    if t == [] {
      SplitNoSlash(b);
    } else if StripSlashes(t) == [] {
      SplitSlash("");
      assert b == "/" + "";
    } else {
      var s := StripSlashes(t);
      match LastIndexOf(s, '/')
      case None =>
        SplitNoSlash(b);
      case Some(i) =>
        assert b == s[i + 1..];
        SplitNoSlash(b);
    }
  }

  /** What `StripSlashes` removes starts with a '/'. */
  lemma {:induction false} StrippedSlash(t: string)
    ensures |StripSlashes(t)| < |t| ==> t[|StripSlashes(t)|] == '/'
  {
    if t != [] && t[|t| - 1] == '/' {
      StrippedSlash(t[..|t| - 1]);
    }
  }

  /** The name `Base` gives of a path with no `..` segment is not `..` either. */
  lemma BaseNotParent(t: string)
    requires NoParentRefs(t)
    ensures NoParentRefs(Base(t))
  {
    var b := Base(t);
    if t == [] {
      SplitNoSlash(b);
    } else if StripSlashes(t) == [] {
      SplitSlash("");
      assert b == "/" + "";
    } else {
      var s := StripSlashes(t);
      if |s| < |t| {
        StrippedSlash(t);
        assert t == s + "/" + t[|s| + 1..];
        SplitConcat(s, t[|s| + 1..]);
      }
      assert ".." !in Split(s);
      match LastIndexOf(s, '/')
      case None =>
        SplitNoSlash(b);
      case Some(i) =>
        assert s == s[..i] + "/" + s[i + 1..];
        SplitConcat(s[..i], s[i + 1..]);
        assert b == s[i + 1..];
        SplitNoSlash(b);
    }
  }

  /** The directory `Dir` gives of a path with no `..` segment is tidy. */
  lemma DirTidy(t: string)
    requires NoParentRefs(t)
    ensures Tidy(Dir(t)) && ".." !in Dir(t)
  {
    match LastIndexOf(t, '/')
    case None =>
    case Some(i) =>
      assert t == t[..i] + "/" + t[i + 1..];
      SplitConcat(t[..i], t[i + 1..]);
      assert t[..i + 1] == t[..i] + "/" + "";
      SplitConcat(t[..i], "");
      CleanTidy(t[0] == '/', Split(t[..i + 1]));
  }

  /** Joining a cleaned path with a plain name appends the name. */
  lemma JoinName(dir: Path, name: string)
    requires Clean(dir) == dir && Plain(name)
    ensures JoinPath(dir, name) == dir + [name]
  {
    SplitNoSlash(name);
    JoinKeepsDir(dir, name);
    PlainTidy([name]);
    CleanPlain([name]);
  }

  /** Joining a plain root with an element that has no `..` keeps the root and appends the element's cleaned segments. */
  lemma JoinUnder(root: Path, t: string)
    requires AllPlain(root) && NoParentRefs(t)
    ensures JoinPath(root, t) == root + Segments(t)
    ensures Clean(root + Segments(t)) == root + Segments(t)
  {
    PlainTidy(root);
    CleanPlain(root);
    CleanAppend(root, Split(t));
    CleanTidy(false, Split(t));
    TidyAppend(root, Segments(t));
    CleanPlain(root + Segments(t));
  }

  lemma IndexFilePlain()
    ensures Plain(IndexFile)
  {
    forall j | 0 <= j < |IndexFile| ensures IndexFile[j] != '/' {
      assert IndexFile[j] in "abcdefghijklmnopqrstuvwxyz.";
    }
  }

  /** The joins for a URL that ends in `/`: its segments under the root, then `index.html`. */
  lemma PlaceDirectory(root: Path, t: string)
    requires AllPlain(root) && HasSuffix(t, "/") && NoParentRefs(t)
    ensures Place(root, t) == Location(root + Segments(t), root + Segments(t) + [IndexFile])
  {
    JoinUnder(root, t);
    IndexFilePlain();
    JoinName(root + Segments(t), IndexFile);
  }

  /** The joins for a URL that does not end in `/`: its `Dir` under the root, then its `Base`. */
  lemma PlaceInDir(root: Path, t: string)
    requires AllPlain(root) && !HasSuffix(t, "/") && NoParentRefs(t)
    ensures var loc := Place(root, t);
      && loc.dir == root + Dir(t)
      && loc.file == loc.dir + Segments(Base(t)) && |Segments(Base(t))| <= 1
  {
    var dir := root + Dir(t);
    PlainTidy(root);
    DirTidy(t);
    CleanPlain(root);
    CleanPlain(Dir(t));
    CleanAppend(root, Dir(t));
    TidyAppend(root, Dir(t));
    CleanPlain(dir);
    BaseNotParent(t);
    JoinKeepsDir(dir, Base(t));
    BaseIsOneSegment(t);
  }

  /**
   * Under a date directory of plain segments, for every trimmed URL with no
   * `..` segment: the directory lies under the date directory, and the file
   * lies in that directory, named by at most one more segment. A URL that
   * ends in `/` is stored as `index.html` in the directory its segments name.
   */
  lemma PlaceShape(root: Path, t: string)
    requires AllPlain(root) && NoParentRefs(t)
    ensures var loc := Place(root, t);
      && |loc.dir| >= |root| && loc.dir[..|root|] == root
      && |loc.dir| <= |loc.file| <= |loc.dir| + 1 && loc.file[..|loc.dir|] == loc.dir
      && (HasSuffix(t, "/") ==> loc.dir == root + Segments(t) && loc.file == loc.dir + [IndexFile])
  {
    if HasSuffix(t, "/") {
      PlaceDirectory(root, t);
    } else {
      PlaceInDir(root, t);
    }
  }

  /**
   * For every date and every URL with no `..` segment: the directory lies
   * under `aws_html/YYYY/MM/DD`, and the file lies in that directory, named
   * by at most one more segment; a URL whose trimmed form ends in `/` is
   * stored as `index.html` in the directory its segments name.
   */
  lemma LocateShape(d: Date, url: string)
    requires NoParentRefs(TrimPrefix(url, Secure))
    ensures var loc, t := Locate(d, url), TrimPrefix(url, Secure);
      && |loc.dir| >= 4 && loc.dir[..4] == DatePath(d)
      && |loc.dir| <= |loc.file| <= |loc.dir| + 1 && loc.file[..|loc.dir|] == loc.dir
      && (HasSuffix(t, "/") ==> loc.dir == DatePath(d) + Segments(t) && loc.file == loc.dir + [IndexFile])
  {
    DatePathPlain(d);
    PlaceShape(DatePath(d), TrimPrefix(url, Secure));
  }

  /** Under a plain root, a URL of plain segments ending in `/` names a directory holding `index.html`. */
  lemma PlaceTrailing(root: Path, segs: seq<string>)
    requires AllPlain(root) && |segs| >= 1 && AllPlain(segs)
    ensures Place(root, Join(segs) + "/") == Location(root + segs, root + segs + [IndexFile])
  {
    var t := Join(segs) + "/";
    assert t[|t| - 1] == '/';
    assert HasSuffix(t, "/");
    SegmentsOfJoinSlash(segs);
    PlaceDirectory(root, t);
  }

  /** Under a plain root, a URL of plain segments names the file of those segments, in their parent directory. */
  lemma PlaceFile(root: Path, head: seq<string>, last: string)
    requires AllPlain(root) && AllPlain(head) && Plain(last)
    ensures Place(root, Join(head + [last])) == Location(root + head, root + head + [last])
  {
    FileOfJoin(head, last);
    PlaceNamed(root, head, last, Join(head + [last]));
  }

  /** A join of plain segments does not end in `/`; its `Dir` is all but the last segment, its `Base` the last. */
  lemma FileOfJoin(head: seq<string>, last: string)
    requires AllPlain(head) && Plain(last)
    ensures var t := Join(head + [last]); !HasSuffix(t, "/") && Dir(t) == head && Base(t) == last
  {
    if head == [] {
      assert head + [last] == [last];
      DirAndBaseOfSegment(last);
    } else {
      JoinSnoc(head, last);
      DirOfJoin(head, last);
      BaseOfJoin(head, last);
    }
  }

  /** The joins for a URL whose `Dir` is `head` and whose `Base` is `last`. */
  lemma PlaceNamed(root: Path, head: seq<string>, last: string, t: string)
    requires AllPlain(root) && AllPlain(head) && Plain(last)
    requires !HasSuffix(t, "/") && Dir(t) == head && Base(t) == last
    ensures Place(root, t) == Location(root + head, root + head + [last])
  {
    var dir := root + head;
    PlainTidy(root);
    PlainTidy(head);
    TidyAppend(root, head);
    CleanAppend(root, head);
    CleanPlain(root);
    CleanPlain(head);
    CleanPlain(dir);
    JoinName(dir, last);
  }

  /** A trailing slash adds no segment. */
  lemma SegmentsOfJoinSlash(segs: seq<string>)
    requires |segs| >= 1 && AllPlain(segs)
    ensures Split(Join(segs) + "/") == segs + [""]
    ensures Segments(Join(segs) + "/") == segs
  {
    var more := segs + [""];
    JoinSnoc(segs, "");
    assert Join(segs) + "/" + "" == Join(segs) + "/";
    assert forall i :: 0 <= i < |more| ==> '/' !in more[i] by {
      forall i | 0 <= i < |more| ensures '/' !in more[i] {
        if i < |segs| {
          assert more[i] == segs[i];
        }
      }
    }
    SplitJoin(more);
    CleanAppend(segs, [""]);
    PlainTidy(segs);
    CleanPlain(segs);
  }

  /** `Dir` of `head/last`: the segments of `head`. */
  lemma DirOfJoin(head: seq<string>, last: string)
    requires |head| >= 1 && AllPlain(head) && Plain(last)
    ensures Dir(Join(head + [last])) == head
  {
    var h := Join(head);
    var t := h + "/" + last;
    JoinSnoc(head, last);
    LastSlashBefore(h, last);
    assert t[..|h| + 1] == h + "/";
    SegmentsOfJoinSlash(head);
    PlainTidy(head);
    assert ".." !in head + [""];
    CleanTidy(t[0] == '/', head + [""]);
  }

  /** `Base` of `head/last`: `last`. */
  lemma BaseOfJoin(head: seq<string>, last: string)
    requires Plain(last)
    ensures !HasSuffix(Join(head) + "/" + last, "/")
    ensures Base(Join(head) + "/" + last) == last
  {
    var h := Join(head);
    var t := h + "/" + last;
    assert t[|t| - 1] == last[|last| - 1];
    assert t[|t| - 1] != '/';
    assert StripSlashes(t) == t;
    LastSlashBefore(h, last);
    assert t[|h| + 1..] == last;
  }

  /** `Dir` and `Base` of a single plain segment: no directory, and the segment. */
  lemma DirAndBaseOfSegment(last: string)
    requires Plain(last)
    ensures !HasSuffix(last, "/") && Dir(last) == [] && Base(last) == last
  {
    assert last[|last| - 1] != '/';
    assert StripSlashes(last) == last;
  }

  lemma TrimScheme(t: string)
    ensures TrimPrefix(Secure + t, Secure) == t
  {
    var url := Secure + t;
    assert url[..|Secure|] == Secure;
    assert url[|Secure|..] == t;
  }

  /**
   * A URL `https://` + plain segments + `/` is stored as `index.html` in the
   * directory `aws_html/YYYY/MM/DD/` + those segments.
   */
  lemma LocateDirectoryUrl(d: Date, segs: seq<string>)
    requires |segs| >= 1 && AllPlain(segs)
    ensures Locate(d, Secure + Join(segs) + "/") == Location(DatePath(d) + segs, DatePath(d) + segs + [IndexFile])
  {
    var t := Join(segs) + "/";
    TrimScheme(t);
    assert Secure + Join(segs) + "/" == Secure + t;
    DatePathPlain(d);
    PlaceTrailing(DatePath(d), segs);
  }

  /**
   * A URL `https://` + plain segments `head/last` is stored as the file
   * `aws_html/YYYY/MM/DD/head/last`, in the directory `aws_html/YYYY/MM/DD/head`.
   */
  lemma LocateFileUrl(d: Date, head: seq<string>, last: string)
    requires AllPlain(head) && Plain(last)
    ensures Locate(d, Secure + Join(head + [last])) == Location(DatePath(d) + head, DatePath(d) + head + [last])
  {
    TrimScheme(Join(head + [last]));
    DatePathPlain(d);
    PlaceFile(DatePath(d), head, last);
  }

  /** `…/dir/` and `…/dir/index.html` are stored in the same file. */
  lemma TrailingSlashIsIndex(d: Date, segs: seq<string>)
    requires |segs| >= 1 && AllPlain(segs)
    ensures Locate(d, Secure + Join(segs) + "/").file == Locate(d, Secure + Join(segs + [IndexFile])).file
  {
    IndexFilePlain();
    LocateDirectoryUrl(d, segs);
    LocateFileUrl(d, segs, IndexFile);
  }

  // ---------------------------------------------------------------------------
  // Parent references in a URL
  // ---------------------------------------------------------------------------

  /** `n` segments `..`. */
  function Parents(n: nat): Path
  {
    seq(n, _ => "..")
  }

  /** Each `..` after a tidy path removes one of its segments. */
  lemma {:induction false} CleanParents(a: Path, n: nat)
    requires Tidy(a) && n <= |a|
    ensures Clean(a + Parents(n)) == a[..|a| - n]
  {
    var s := a + Parents(n);
    if n == 0 {
      assert s == a && a[..|a|] == a;
      CleanPlain(a);
    } else {
      assert s[..|s| - 1] == a + Parents(n - 1);
      assert s[|s| - 1] == "..";
      CleanParents(a, n - 1);
      assert a[..|a| - n + 1][..|a| - n] == a[..|a| - n];
    }
  }

  /** In a relative path, the `..` left over once one segment is removed stay. */
  lemma {:induction false} CleanPastSegment(seg: string, n: nat)
    requires Plain(seg)
    ensures Clean([seg] + Parents(n + 1)) == Parents(n)
  {
    var s := [seg] + Parents(n + 1);
    assert s[..|s| - 1] == [seg] + Parents(n);
    assert s[|s| - 1] == "..";
    if n == 0 {
      assert [seg] + Parents(0) == [seg];
      PlainTidy([seg]);
      CleanPlain([seg]);
    } else {
      CleanPastSegment(seg, n - 1);
      assert Parents(n - 1) + [".."] == Parents(n);
    }
  }

  /** The segments of `host/../…/../name/`, and its first character. */
  lemma SplitPastRoot(host: string, n: nat, name: string)
    requires Plain(host) && Plain(name)
    ensures var head := [host] + Parents(n + 1) + [name];
      && Split(Join(head) + "/") == head + [""]
      && Join(head)[0] != '/'
  {
    var head := [host] + Parents(n + 1) + [name];
    var h := Join(head);
    var more := head + [""];
    JoinSnoc(head, "");
    assert h + "/" + "" == h + "/";
    forall i | 0 <= i < |more| ensures '/' !in more[i] {
      if 1 <= i < |head| - 1 {
        assert more[i] == "..";
      }
    }
    SplitJoin(more);
    assert h == host + "/" + Join(head[1..]);
  }

  /** Cleaning `host/../…/../name/` with `n + 1` parent references leaves `n` of them, then `name`. */
  lemma CleanPastRoot(host: string, n: nat, name: string)
    requires Plain(host) && Plain(name)
    ensures Clean([host] + Parents(n + 1) + [name] + [""]) == Parents(n) + [name]
  {
    var head := [host] + Parents(n + 1) + [name];
    var more := head + [""];
    assert more[..|more| - 1] == head;
    assert head[..|head| - 1] == [host] + Parents(n + 1);
    CleanPastSegment(host, n);
    assert Clean(head) == Parents(n) + [name];
  }

  /** `Dir` of `host/../…/../name/file` with `n + 1` parent references: `n` of them, then `name`. */
  lemma DirPastRoot(host: string, n: nat, name: string, file: string)
    requires Plain(host) && Plain(name) && Plain(file)
    ensures var head := [host] + Parents(n + 1) + [name];
      && Join(head + [file]) == Join(head) + "/" + file
      && Dir(Join(head) + "/" + file) == Parents(n) + [name]
  {
    var head := [host] + Parents(n + 1) + [name];
    var h := Join(head);
    var t := h + "/" + file;
    JoinSnoc(head, file);
    LastSlashBefore(h, file);
    assert t[..|h| + 1] == h + "/";
    SplitPastRoot(host, n, name);
    CleanPastRoot(host, n, name);
    assert t[0] == h[0];
  }

  /** Under a tidy root, as many `..` as it has segments lead back out of it. */
  lemma CleanBackOut(root: Path, name: string)
    requires AllPlain(root) && Plain(name)
    ensures Clean(root + (Parents(|root|) + [name])) == [name]
  {
    var s := root + (Parents(|root|) + [name]);
    assert s[..|s| - 1] == root + Parents(|root|);
    PlainTidy(root);
    CleanParents(root, |root|);
  }

  /**
   * `downloadAndSaveAsHTML` resolves `..` in the trimmed URL against the date
   * directory: under a plain root of `k` segments, a page
   * `host/../…/../name/file` with `k + 1` parent references climbs past every
   * segment of the root and is stored as `name/file`, whatever the root.
   */
  lemma PlacePastRoot(root: Path, host: string, name: string, file: string)
    requires AllPlain(root) && Plain(host) && Plain(name) && Plain(file)
    ensures Place(root, Join([host] + Parents(|root| + 1) + [name, file])) == Location([name], [name, file])
  {
    var head := [host] + Parents(|root| + 1) + [name];
    assert [host] + Parents(|root| + 1) + [name, file] == head + [file];
    DirPastRoot(host, |root|, name, file);
    BaseOfJoin(head, file);
    var t := Join(head) + "/" + file;
    assert Dir(t) == Parents(|root|) + [name];
    CleanBackOut(root, name);
    PlainTidy([name]);
    CleanPlain([name]);
    JoinName([name], file);
  }

  /**
   * A page URL with five `..` segments after the host escapes the date
   * directory: it is stored as `name/file`, which lies outside `aws_html`
   * too unless `name` is `aws_html` itself.
   */
  lemma LocatePastDateDir(d: Date, host: string, name: string, file: string)
    requires Plain(host) && Plain(name) && Plain(file)
    ensures Locate(d, Secure + Join([host] + Parents(5) + [name, file])) == Location([name], [name, file])
  {
    TrimScheme(Join([host] + Parents(5) + [name, file]));
    DatePathPlain(d);
    PlacePastRoot(DatePath(d), host, name, file);
  }

  // ---------------------------------------------------------------------------
  // One download
  // ---------------------------------------------------------------------------

  /** What one call does to the disk: the directory it creates, the tries it makes, the file it writes. */
  datatype Effects = Effects(madeDir: Option<Path>, attempts: nat, written: Option<(Path, seq<bv8>)>)

  /**
   * `downloadAndSaveAsHTML` for the page `url` on date `now`. `mkdirOk` and
   * `writeOk` say whether `os.MkdirAll` and `os.WriteFile` succeed, `respond`
   * answers the fetch, and `body` is what reading the response gives (`None`
   * when the read fails). The directory is created before anything is fetched,
   * and the file is written only after a successful fetch and read.
   */
  function Download(now: Date, url: string, mkdirOk: bool, respond: nat -> Attempt, body: Option<seq<bv8>>, writeOk: bool): (r: Effects)
    ensures r.madeDir.Some? <==> mkdirOk
    ensures r.madeDir.Some? ==> r.madeDir.value == Locate(now, url).dir
    ensures r.attempts == if mkdirOk then Retry(respond, 0).attempts else 0
    ensures Retry(respond, 0).result.Fail? ==> r.written.None?
    ensures r.written.Some? <==> mkdirOk && Retry(respond, 0).result == Ok && body.Some? && writeOk
    ensures r.written.Some? ==> r.written.value == (Locate(now, url).file, body.value)
  {
    var loc := Locate(now, url);
    if !mkdirOk then Effects(None, 0, None)
    else
      var fetch := Retry(respond, 0);
      if fetch.result.Fail? || body.None? || !writeOk then Effects(Some(loc.dir), fetch.attempts, None)
      else Effects(Some(loc.dir), fetch.attempts, Some((loc.file, body.value)))
  }

  /** A download that runs into five 403 answers tries five times and writes nothing. */
  lemma RateLimitedDownload(now: Date, url: string, respond: nat -> Attempt, body: Option<seq<bv8>>, writeOk: bool)
    requires forall i :: 0 <= i < MaxRetries ==> respond(i) == Status(StatusForbidden)
    ensures Download(now, url, true, respond, body, writeOk).attempts == MaxRetries
    ensures Download(now, url, true, respond, body, writeOk).written.None?
  {
    AlwaysForbidden(respond);
  }
}
