/** The line filter and the file rewrite of `devScripts/projectLicenser.py`: the
    lines of a Java source file before its `package ` line are dropped and the
    license lines, then a newline, are put in their place.

    Reading and writing the file are outside the model: the file's lines are a
    parameter and the written chunks are returned in the order they are written. */
module Licenser {

  const PackageMarker: string := "package "

  /** `line.startswith("package ")`. */
  predicate StartsWithPackage(line: string) {
    |line| >= |PackageMarker| && line[..|PackageMarker|] == PackageMarker
  }

  predicate NoPackageLine(lines: seq<string>) {
    forall i :: 0 <= i < |lines| ==> !StartsWithPackage(lines[i])
  }

  /** The index of the first line starting with `package `; the number of lines when
      there is none. */
  function FirstPackage(lines: seq<string>): (k: nat)
    ensures k <= |lines|
    ensures forall i :: 0 <= i < k ==> !StartsWithPackage(lines[i])
    ensures k < |lines| ==> StartsWithPackage(lines[k])
  {
    if lines == [] then 0
    else if StartsWithPackage(lines[0]) then 0
    else 1 + FirstPackage(lines[1..])
  }

  /** The lines `getContent` keeps: those from the first `package ` line on. */
  function FromPackage(lines: seq<string>): seq<string> {
    lines[FirstPackage(lines)..]
  }

  /** `getContent(pfile)` over the lines of the file. */
  method GetContent(lines: seq<string>) returns (ret: seq<string>)
    ensures ret == FromPackage(lines)
  {
    ret := [];
    var found := false;
    var i := 0;
    while i < |lines|
      invariant 0 <= i <= |lines|
      invariant found <==> FirstPackage(lines) < i
      invariant ret == if found then lines[FirstPackage(lines)..i] else []
    {
      var line := lines[i];
      if found || StartsWithPackage(line) {
        found := true;
      }
      if found {
        ret := ret + [line];
      }
      i := i + 1;
    }
  }

  // ---------------------------------------------------------------------------
  // Properties of the filter
  // ---------------------------------------------------------------------------

  /** The result is a suffix of the input that starts at a `package ` line, and every
      line dropped lacks the marker: it is the suffix from the first such line. */
  lemma FromPackageIsSuffix(lines: seq<string>)
    ensures var r := FromPackage(lines);
            |r| <= |lines| && r == lines[|lines| - |r|..] &&
            (r != [] ==> StartsWithPackage(r[0])) &&
            NoPackageLine(lines[..|lines| - |r|])
  {
    var k := FirstPackage(lines);
    assert |lines| - |FromPackage(lines)| == k;
    forall i | 0 <= i < k ensures !StartsWithPackage(lines[..k][i]) {
      assert lines[..k][i] == lines[i];
    }
  }

  /** Nothing is kept exactly when no line starts with `package `. */
  lemma FromPackageEmpty(lines: seq<string>)
    ensures FromPackage(lines) == [] <==> NoPackageLine(lines)
  {
  }

  /** Lines without the marker in front shift the first `package ` line. */
  lemma {:induction false} FirstPackageSkips(a: seq<string>, b: seq<string>)
    requires NoPackageLine(a)
    ensures FirstPackage(a + b) == |a| + FirstPackage(b)
  {
    if a == [] {
      assert a + b == b;
    } else {
      assert (a + b)[0] == a[0] && (a + b)[1..] == a[1..] + b;
      assert !StartsWithPackage(a[0]);
      FirstPackageSkips(a[1..], b);
    }
  }

  /** Lines after a `package ` line do not move it. */
  lemma {:induction false} FirstPackageStays(a: seq<string>, b: seq<string>)
    requires !NoPackageLine(a)
    ensures FirstPackage(a + b) == FirstPackage(a)
  {
    assert a != [];
    assert (a + b)[0] == a[0] && (a + b)[1..] == a[1..] + b;
    if !StartsWithPackage(a[0]) {
      var i :| 0 <= i < |a| && StartsWithPackage(a[i]);
      assert a[1..][i - 1] == a[i];
      FirstPackageStays(a[1..], b);
    }
  }

  /** Once a `package ` line has been seen every later line is kept, whatever it
      holds. */
  lemma FromPackageKeepsLater(a: seq<string>, b: seq<string>)
    requires !NoPackageLine(a)
    ensures FromPackage(a + b) == FromPackage(a) + b
  {
    FirstPackageStays(a, b);
  }

  /** Filtering the filtered lines again changes nothing. */
  lemma FromPackageIdempotent(lines: seq<string>)
    ensures FromPackage(FromPackage(lines)) == FromPackage(lines)
  {
    var r := FromPackage(lines);
    if r != [] {
      assert StartsWithPackage(r[0]);
    }
  }

  // ---------------------------------------------------------------------------
  // The rewritten file
  // ---------------------------------------------------------------------------

  /** `licenseFile(filename, license)`: the chunks written back, in order: the
      license lines, a newline, then the kept lines. */
  method LicenseFile(license: seq<string>, lines: seq<string>) returns (written: seq<string>)
    ensures written == license + ["\n"] + FromPackage(lines)
  {
    var content := GetContent(lines);
    written := [];
    written := written + license;
    written := written + ["\n"];
    written := written + content;
  }

  /** The text of a sequence of chunks written one after the other. */
  function Join(chunks: seq<string>): string {
    if chunks == [] then "" else chunks[0] + Join(chunks[1..])
  }

  lemma {:induction false} JoinConcat(a: seq<string>, b: seq<string>)
    ensures Join(a + b) == Join(a) + Join(b)
  {
    if a == [] {
      assert a + b == b;
    } else {
      assert (a + b)[0] == a[0] && (a + b)[1..] == a[1..] + b;
      JoinConcat(a[1..], b);
    }
  }

  /** The rewritten file's text is the license text, a newline and the text from the
      first `package ` line on. */
  lemma LicensedText(license: seq<string>, lines: seq<string>)
    ensures Join(license + ["\n"] + FromPackage(lines)) == Join(license) + "\n" + Join(FromPackage(lines))
  {
    JoinConcat(license + ["\n"], FromPackage(lines));
    JoinConcat(license, ["\n"]);
    assert Join(["\n"]) == "\n" + Join([]);
  }

  /** Licensing a licensed file again with a license that has no `package ` line
      gives the same file: the old license is dropped with the lines before the
      `package ` line. */
  lemma RelicenseIsStable(license: seq<string>, lines: seq<string>)
    requires NoPackageLine(license) && !NoPackageLine(lines)
    ensures var once := license + ["\n"] + FromPackage(lines);
            license + ["\n"] + FromPackage(once) == once
  {
    var head := license + ["\n"];
    assert NoPackageLine(head) by {
      forall i | 0 <= i < |head| ensures !StartsWithPackage(head[i]) {
        if i < |license| {
          assert head[i] == license[i];
        } else {
          assert head[i] == "\n";
        }
      }
    }
    FirstPackageSkips(head, FromPackage(lines));
    FromPackageEmpty(lines);
    FromPackageIsSuffix(lines);
    FromPackageIdempotent(lines);
    assert (head + FromPackage(lines))[|head|..] == FromPackage(lines);
  }

  // ---------------------------------------------------------------------------
  // The file as text
  // ---------------------------------------------------------------------------

  /** A chunk as `readlines()` returns it: not empty, with a newline at most at its
      end. */
  predicate IsLine(c: string) {
    c != "" && forall i :: 0 <= i < |c| - 1 ==> c[i] != '\n'
  }

  predicate EndsLine(c: string) {
    c != "" && c[|c| - 1] == '\n'
  }

  /** What `readlines()` returns: lines, each ended by a newline except perhaps the
      last. */
  predicate IsLines(cs: seq<string>) {
    (forall i :: 0 <= i < |cs| ==> IsLine(cs[i])) &&
    (forall i :: 0 <= i < |cs| - 1 ==> EndsLine(cs[i]))
  }

  /** The length of the first line of `s`, its newline included. */
  function LineLength(s: string): (k: nat)
    requires s != ""
    ensures 0 < k <= |s| && IsLine(s[..k])
    ensures k < |s| ==> EndsLine(s[..k])
    decreases |s|
  {
    if s[0] == '\n' || |s| == 1 then 1
    else
      var k := 1 + LineLength(s[1..]);
      assert s[..k] == [s[0]] + s[1..][..k - 1];
      k
  }

  /** `readlines()` on the text `s`: it is cut after each newline, and the pieces
      put back together give `s`. */
  function ReadLines(s: string): (r: seq<string>)
    ensures Join(r) == s && IsLines(r)
    decreases |s|
  {
    if s == "" then []
    else
      var k := LineLength(s);
      var r := [s[..k]] + ReadLines(s[k..]);
      assert r[0] == s[..k] && r[1..] == ReadLines(s[k..]);
      assert s[..k] + s[k..] == s;
      r
  }

  /** The first line of a text that starts with a line is that line. */
  lemma {:induction false} LineLengthOf(c: string, t: string)
    requires IsLine(c) && (t != "" ==> EndsLine(c))
    ensures LineLength(c + t) == |c|
    decreases |c|
  {
    if |c| > 1 {
      assert c[0] != '\n';
      assert (c + t)[1..] == c[1..] + t;
      assert IsLine(c[1..]) by {
        forall i | 0 <= i < |c[1..]| - 1 ensures c[1..][i] != '\n' {
          assert c[1..][i] == c[i + 1];
        }
      }
      LineLengthOf(c[1..], t);
    }
  }

  /** Reading back written lines gives the same lines. */
  lemma {:induction false} ReadLinesJoin(cs: seq<string>)
    requires IsLines(cs)
    ensures ReadLines(Join(cs)) == cs
    decreases |cs|
  {
    if cs != [] {
      var rest := cs[1..];
      assert IsLines(rest) by {
        forall i | 0 <= i < |rest| ensures IsLine(rest[i]) && (i < |rest| - 1 ==> EndsLine(rest[i])) {
          assert rest[i] == cs[i + 1];
        }
      }
      assert Join(cs) == cs[0] + Join(rest);
      if rest != [] {
        assert EndsLine(cs[0]);
      } else {
        assert Join(rest) == "";
      }
      LineLengthOf(cs[0], Join(rest));
      var s := Join(cs);
      assert s[..|cs[0]|] == cs[0] && s[|cs[0]|..] == Join(rest);
      ReadLinesJoin(rest);
    }
  }

  /** Lines followed by lines are lines, when the first ones end with a newline. */
  lemma IsLinesConcat(a: seq<string>, b: seq<string>)
    requires IsLines(a) && IsLines(b) && (a != [] ==> EndsLine(a[|a| - 1]))
    ensures IsLines(a + b)
  {
    var c := a + b;
    forall i | 0 <= i < |c| ensures IsLine(c[i]) && (i < |c| - 1 ==> EndsLine(c[i])) {
      if i < |a| {
        assert c[i] == a[i];
      } else {
        assert c[i] == b[i - |a|];
      }
    }
  }

  /** The lines kept from lines are lines. */
  lemma FromPackageIsLines(lines: seq<string>)
    requires IsLines(lines)
    ensures IsLines(FromPackage(lines))
  {
    var k := FirstPackage(lines);
    var r := FromPackage(lines);
    forall i | 0 <= i < |r| ensures IsLine(r[i]) && (i < |r| - 1 ==> EndsLine(r[i])) {
      assert r[i] == lines[k + i];
    }
  }

  /** The text of a file that held `text` after `licenseFile` with the license lines
      `license`. */
  function LicensedFile(license: seq<string>, text: string): string {
    Join(license + ["\n"] + FromPackage(ReadLines(text)))
  }

  /** Licensing a licensed file again gives the same text, when the license is read
      from a file that ends with a newline and has no `package ` line, and the
      file had a `package ` line: the file is read back into the same lines it
      was written from. */
  lemma RelicenseTextIsStable(license: seq<string>, text: string)
    requires IsLines(license) && (license != [] ==> EndsLine(license[|license| - 1]))
    requires NoPackageLine(license) && !NoPackageLine(ReadLines(text))
    ensures LicensedFile(license, LicensedFile(license, text)) == LicensedFile(license, text)
  {
    var kept := FromPackage(ReadLines(text));
    var once := license + ["\n"] + kept;
    assert IsLines(["\n"]);
    IsLinesConcat(license, ["\n"]);
    FromPackageIsLines(ReadLines(text));
    IsLinesConcat(license + ["\n"], kept);
    ReadLinesJoin(once);
    RelicenseIsStable(license, ReadLines(text));
  }
}
