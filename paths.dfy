/** The parts of Rust's `Path` the updater relies on (`parent`, `file_name`,
    `extension`), on Unix-style paths without `.` components, repeated
    separators or a trailing separator, and the temporary file name the
    updater extracts to. */
module Paths {
  import opened Wrappers

  type Path = string

  /** The last position of `c` in `s`, or -1 when `c` does not occur. */
  function LastIndexOf(s: string, c: char): (r: int)
    ensures -1 <= r < |s|
    ensures 0 <= r ==> s[r] == c
    ensures forall j :: r < j < |s| ==> s[j] != c
  {
    if s == [] then -1
    else if s[|s| - 1] == c then |s| - 1
    else LastIndexOf(s[..|s| - 1], c)
  }

  /** Appending text without `c` does not move the last `c`. */
  lemma {:induction false} LastIndexOfAppend(s: string, t: string, c: char)
    requires c !in t
    ensures LastIndexOf(s + t, c) == LastIndexOf(s, c)
  {
    if t != [] {
      var u := s + t[..|t| - 1];
      assert s + t == u + [t[|t| - 1]];
      assert (s + t)[..|s + t| - 1] == u;
      assert t[|t| - 1] in t;
      LastIndexOfAppend(s, t[..|t| - 1], c);
    } else {
      assert s + t == s;
    }
  }

  /** `Path::parent`: `None` for the empty path and for the root; otherwise
      the text before the last separator (the root for a top-level entry,
      the empty path for a bare name). */
  function Parent(p: Path): (r: Option<Path>)
    ensures r.None? <==> p == "" || p == "/"
    ensures r.Some? ==> |r.value| < |p| && r.value <= p
  {
    if p == "" || p == "/" then None
    else
      var i := LastIndexOf(p, '/');
      if i < 0 then Some("")
      else if i == 0 then Some("/")
      else Some(p[..i])
  }

  /** `Path::file_name`: the text after the last separator. */
  function FileName(p: Path): (r: string)
    ensures |r| <= |p| && r == p[|p| - |r|..] && '/' !in r
    ensures |r| < |p| ==> p[|p| - |r| - 1] == '/'
  {
    p[LastIndexOf(p, '/') + 1..]
  }

  /** A path is its parent, a separator unless the parent is empty or the
      root, and its file name: the parent is the path without its last
      component. */
  lemma ParentJoinsFileName(p: Path)
    requires Parent(p).Some?
    ensures var q := Parent(p).value;
      (q == "" && p == FileName(p)) ||
      (q == "/" && p == "/" + FileName(p)) ||
      p == q + "/" + FileName(p)
  {
    var i := LastIndexOf(p, '/');
    if 0 <= i {
      assert p == p[..i] + "/" + p[i + 1..];
    }
  }

  /** `Path::extension` of a file name: the text after its last dot, except
      when there is no dot, when the only dot is the leading one of a hidden
      file, or for `..`. */
  function Extension(name: string): Option<string> {
    if name == ".." then None
    else
      var i := LastIndexOf(name, '.');
      if i <= 0 then None else Some(name[i + 1..])
  }

  /** There is no extension exactly for `..` and for names without a dot
      after the first character; otherwise the name is a non-empty stem, a
      dot and the extension, which holds no dot. */
  lemma ExtensionAfterLastDot(name: string)
    ensures Extension(name).None? <==> name == ".." || forall j :: 0 < j < |name| ==> name[j] != '.'
    ensures Extension(name).Some? ==>
      var e := Extension(name).value;
      var stem := |name| - |e| - 1;
      0 < stem && name == name[..stem] + "." + e && '.' !in e
  {
    var i := LastIndexOf(name, '.');
    if name != ".." && 0 < i {
      assert name == name[..i] + "." + name[i + 1..];
    }
  }

  /** The updater's test `path.extension() == Some("mmdb")`, stated on the
      path's last characters: it ends in `.mmdb` preceded by a character of
      the same file name. `IsMmdbIsExtensionTest` shows the two agree. */
  predicate IsMmdb(p: Path) {
    6 <= |p| && p[|p| - 5..] == ".mmdb" && p[|p| - 6] != '/'
  }

  /** A name ending in `.mmdb` has no dot after that one. */
  lemma MmdbTail(n: string)
    requires 5 <= |n| && n[|n| - 5..] == ".mmdb"
    ensures n[|n| - 5] == '.' && n[|n| - 4..] == "mmdb"
    ensures forall j :: |n| - 5 <= j < |n| ==> n[j] != '/'
    ensures forall j :: |n| - 5 < j < |n| ==> n[j] != '.'
  {
    var m := n[|n| - 5..];
    assert n[|n| - 5] == m[0];
    assert n[|n| - 4..] == m[1..];
    forall j | |n| - 5 <= j < |n| ensures n[j] == m[j - (|n| - 5)] {
    }
  }

  /** A file name has the extension `mmdb` exactly when it is `.mmdb`
      preceded by at least one character. */
  lemma ExtensionMmdb(n: string)
    ensures Extension(n) == Some("mmdb") <==> 5 < |n| && n[|n| - 5..] == ".mmdb"
  {
    var i := LastIndexOf(n, '.');
    if 5 < |n| && n[|n| - 5..] == ".mmdb" {
      MmdbTail(n);
      assert i == |n| - 5;
      assert n[i + 1..] == "mmdb";
    }
    if Extension(n) == Some("mmdb") {
      assert 0 < i && n[i + 1..] == "mmdb";
      assert n[|n| - 5..] == [n[i]] + n[i + 1..];
    }
  }

  /** The last `k` characters of a suffix of `p` are the last `k` of `p`. */
  lemma SuffixEnd(p: string, n: string, k: nat)
    requires |n| <= |p| && n == p[|p| - |n|..] && k <= |n|
    ensures n[|n| - k..] == p[|p| - k..]
  {
    var a, b := n[|n| - k..], p[|p| - k..];
    forall j | 0 <= j < k ensures a[j] == b[j] {
      assert a[j] == n[|n| - k + j];
    }
  }

  /** `IsMmdb` is Rust's test: the extension of the file name is `mmdb`. */
  lemma IsMmdbIsExtensionTest(p: Path)
    ensures IsMmdb(p) <==> Extension(FileName(p)) == Some("mmdb")
  {
    var n := FileName(p);
    ExtensionMmdb(n);
    if 5 < |n| {
      SuffixEnd(p, n, 5);
      SuffixEnd(p, n, 6);
      assert p[|p| - 6] == p[|p| - 6..][0] == n[|n| - 6..][0] == n[|n| - 6];
      assert n[|n| - 6] in n;
    }
    if IsMmdb(p) {
      MmdbTail(p);
      assert 6 <= |n|;
    }
  }

  /** In any directory, `GeoLite2-City.mmdb` is taken for the database, but
      neither a hidden file called `.mmdb` nor an upper-case `.MMDB` is. */
  lemma DatabaseNames(dir: Path)
    ensures IsMmdb(dir + "/GeoLite2-City.mmdb")
    ensures !IsMmdb(dir + "/.mmdb") && !IsMmdb(dir + "/GeoLite2-City.MMDB")
  {
    var city := dir + "/GeoLite2-City.mmdb";
    assert city[|city| - 5..] == ".mmdb" && city[|city| - 6] == 'y';
    var hidden := dir + "/.mmdb";
    assert hidden[|hidden| - 6] == '/';
    var upper := dir + "/GeoLite2-City.MMDB";
    assert upper[|upper| - 4] == 'M';
  }

  function Digit(d: nat): (c: char)
    requires d < 10
    ensures '0' <= c <= '9' && c as int - '0' as int == d
  {
    ('0' as int + d) as char
  }

  predicate AllDigits(s: string) {
    forall i :: 0 <= i < |s| ==> '0' <= s[i] <= '9'
  }

  /** The number a run of decimal digits denotes. */
  function Value(s: string): nat
    requires AllDigits(s)
  {
    if s == [] then 0 else Value(s[..|s| - 1]) * 10 + (s[|s| - 1] as int - '0' as int)
  }

  /** The decimal text of `n`, as `format!("{}", n)` writes it. */
  function Decimal(n: nat): (s: string)
    ensures 0 < |s| && AllDigits(s) && Value(s) == n
  {
    if n < 10 then
      var s := [Digit(n)];
      assert s[..0] == [];
      s
    else
      var s := Decimal(n / 10) + [Digit(n % 10)];
      assert s[..|s| - 1] == Decimal(n / 10);
      s
  }

  /** The temporary file the archive entry is extracted to:
      `<destination>.<process id>.tmp`. */
  function TempPath(dest: Path, pid: nat): Path {
    dest + "." + Decimal(pid) + ".tmp"
  }

  /** The temporary file's name is the destination, a dot, digits and
      `.tmp`, and the digits read back as the process id. */
  lemma TempPathNamesProcess(dest: Path, pid: nat)
    ensures var t := TempPath(dest, pid);
      |dest| + 6 <= |t| && t[..|dest| + 1] == dest + "." && t[|t| - 4..] == ".tmp" &&
      AllDigits(t[|dest| + 1..|t| - 4]) && Value(t[|dest| + 1..|t| - 4]) == pid
  {
    var t := TempPath(dest, pid);
    assert t[|dest| + 1..|t| - 4] == Decimal(pid);
    assert t[..|dest| + 1] == dest + ".";
    assert t[|t| - 4..] == ".tmp";
  }

  /** The temporary path is never the destination itself, and it lies in
      the destination's directory, so the final rename stays within one
      directory. */
  lemma TempPathBesideDestination(dest: Path, pid: nat)
    requires Parent(dest).Some?
    ensures TempPath(dest, pid) != dest && dest < TempPath(dest, pid)
    ensures Parent(TempPath(dest, pid)) == Parent(dest)
  {
    var suffix := "." + Decimal(pid) + ".tmp";
    var t := dest + suffix;
    assert TempPath(dest, pid) == t;
    assert t[..|dest|] == dest;
    assert '/' !in suffix;
    LastIndexOfAppend(dest, suffix, '/');
    var i := LastIndexOf(dest, '/');
    assert LastIndexOf(t, '/') == i;
    if 0 < i {
      assert t[..i] == dest[..i];
    }
  }
}
