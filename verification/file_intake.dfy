/** Validation of the name of an uploaded answer-sheet image: the upload is
    accepted only when the text after the last '.' of the client's file name,
    lower-cased, is one of the allowed image extensions. */
module FileIntake {

  /** The image extensions an upload may carry. */
  const AllowedExtensions: set<string> := {"png", "jpg", "jpeg"}

  /** The separator between a file's stem and its extension. */
  const Dot: char := '.'

  /** Puts back together the one or two parts a split at `sep` produced. */
  function Join(parts: seq<string>, sep: char): string
    requires 1 <= |parts| <= 2
  {
    if |parts| == 1 then parts[0] else parts[0] + [sep] + parts[1]
  }

  /** Splitting `s` at most once, at the LAST occurrence of `sep`, as Python's
      `s.rsplit(sep, 1)` does: one part when `sep` does not occur, otherwise the
      text before and the text after the last `sep`. */
  function RSplitOnce(s: string, sep: char): (parts: seq<string>)
    ensures 1 <= |parts| <= 2
    ensures |parts| == 2 <==> sep in s
    ensures Join(parts, sep) == s
    ensures sep !in parts[|parts| - 1]
  {
    if |s| == 0 then [s]
    else
      var init, last := s[..|s| - 1], s[|s| - 1];
      assert s == init + [last];
      if last == sep then [init, []]
      else
        var parts := RSplitOnce(init, sep);
        if |parts| == 1 then [s]
        else
          assert parts[0] + [sep] + (parts[1] + [last]) == (parts[0] + [sep] + parts[1]) + [last];
          [parts[0], parts[1] + [last]]
  }

  /** A string with one marked occurrence of `c` after which `c` no longer
      occurs splits only one way around that occurrence. */
  lemma SplitAtLastUnique(a: string, b: string, x: string, y: string, c: char)
    requires a + [c] + b == x + [c] + y
    requires c !in b && c !in y
    ensures a == x && b == y
  {
    var s := a + [c] + b;
    assert s[|s| - |b| - 1] == c;
    assert s[|s| - |y| - 1] == c;
    if |b| < |y| {
      assert false;
    } else if |y| < |b| {
      assert false;
    }
    assert b == s[|s| - |b|..] == y;
    assert a == s[..|a|] == x;
  }

  /** The split of a name whose last `sep` is known. */
  lemma RSplitOnceAtLast(p: string, t: string, sep: char)
    requires sep !in t
    ensures RSplitOnce(p + [sep] + t, sep) == [p, t]
  {
    var parts := RSplitOnce(p + [sep] + t, sep);
    assert (p + [sep] + t)[|p|] == sep;
    SplitAtLastUnique(parts[0], parts[1], p, t, sep);
  }

  /** The letters the allowed extensions are spelled with. */
  predicate ExtensionLetter(c: char)
  {
    c in "pngje"
  }

  /** Those letters, in lower or upper case. */
  predicate ExtensionLetterAnyCase(c: char)
  {
    c in "pngjePNGJE"
  }

  /** Python's `str.lower()` on one character, for the ASCII letters: the
      result is never an upper-case letter, an upper-case letter becomes the
      lower-case letter at the same place in the alphabet, anything else is
      kept, and so a character lower-cases to one of the letters of the
      allowed extensions exactly when it is one of them in either case. */
  function LowerChar(c: char): (r: char)
    ensures !('A' <= r <= 'Z')
    ensures !('A' <= c <= 'Z') ==> r == c
    ensures 'A' <= c <= 'Z' ==> 'a' <= r <= 'z' && r as int - 'a' as int == c as int - 'A' as int
    ensures ExtensionLetter(r) <==> ExtensionLetterAnyCase(c)
  {
    if 'A' <= c <= 'Z' then (c as int + ('a' as int - 'A' as int)) as char else c
  }

  /** Python's `str.lower()`, character by character: no upper-case letter
      is left, and every other character stays where it was. */
  function Lower(s: string): (r: string)
    ensures |r| == |s|
    ensures forall i :: 0 <= i < |s| ==> r[i] == LowerChar(s[i])
    ensures forall i :: 0 <= i < |r| ==> !('A' <= r[i] <= 'Z')
    ensures forall i :: 0 <= i < |s| && !('A' <= s[i] <= 'Z') ==> r[i] == s[i]
  {
    seq(|s|, i requires 0 <= i < |s| => LowerChar(s[i]))
  }

  /** Lower-casing twice is lower-casing once. */
  lemma LowerIdempotent(s: string)
    ensures Lower(Lower(s)) == Lower(s)
  {
  }

  /** Lower-casing works piecewise and leaves the dot alone. */
  lemma LowerAround(p: string, t: string)
    ensures Lower(p + [Dot] + t) == Lower(p) + [Dot] + Lower(t)
  {
  }

  /** Lower-casing neither creates nor removes a dot. */
  lemma LowerKeepsDots(s: string)
    ensures Dot in Lower(s) <==> Dot in s
  {
    if Dot in s {
      var i :| 0 <= i < |s| && s[i] == Dot;
      assert Lower(s)[i] == Dot;
    }
    if Dot in Lower(s) {
      var i :| 0 <= i < |Lower(s)| && Lower(s)[i] == Dot;
      assert s[i] == Dot;
    }
  }

  /** The last dot of a name, as a position: the dot there has no dot after it. */
  predicate IsLastDot(filename: string, i: int)
  {
    0 <= i < |filename| && filename[i] == Dot && Dot !in filename[i + 1..]
  }

  /** A name has a last dot exactly when it contains a dot; the first part
      of the split at the last dot ends just before it. */
  lemma LastDotExists(filename: string)
    ensures Dot in filename <==> exists i :: IsLastDot(filename, i)
    ensures Dot in filename ==> IsLastDot(filename, |RSplitOnce(filename, Dot)[0]|)
  {
    if Dot in filename {
      var parts := RSplitOnce(filename, Dot);
      var i := |parts[0]|;
      assert filename[i + 1..] == parts[1];
      assert IsLastDot(filename, i);
    }
  }

  /** The text after a last dot is the second part of the split. */
  lemma LastDotSplit(filename: string, i: int)
    requires IsLastDot(filename, i)
    ensures Dot in filename
    ensures RSplitOnce(filename, Dot)[1] == filename[i + 1..]
  {
    assert filename == filename[..i] + [Dot] + filename[i + 1..];
    RSplitOnceAtLast(filename[..i], filename[i + 1..], Dot);
  }

  /** `allowed_file`: the name contains a dot and the text after its last dot,
      lower-cased, is an allowed extension. Read by position: accepted
      exactly when the name has a last dot and the lower-cased text after it
      is allowed. */
  function AllowedFile(filename: string): (ok: bool)
    ensures ok <==> exists i :: IsLastDot(filename, i) && Lower(filename[i + 1..]) in AllowedExtensions
  {
    LastDotExists(filename);
    assert forall i :: IsLastDot(filename, i) ==> RSplitOnce(filename, Dot)[1] == filename[i + 1..] by {
      forall i | IsLastDot(filename, i) {
        LastDotSplit(filename, i);
      }
    }
    Dot in filename && Lower(RSplitOnce(filename, Dot)[1]) in AllowedExtensions
  }

  /** A name without any dot is never accepted. */
  lemma NoDotRejected(filename: string)
    requires Dot !in filename
    ensures !AllowedFile(filename)
  {
  }

  /** Only the text after the last dot matters: whatever comes before it, a
      name ending in `.t` (with no dot in `t`) is accepted exactly when `t`,
      lower-cased, is an allowed extension. */
  lemma AllowedFileBySuffix(p: string, t: string)
    requires Dot !in t
    ensures AllowedFile(p + [Dot] + t) <==> Lower(t) in AllowedExtensions
  {
    RSplitOnceAtLast(p, t, Dot);
  }

  /** Reading the verdict at a known last dot. */
  lemma AllowedFileAtLastDot(filename: string, i: int)
    requires IsLastDot(filename, i)
    ensures AllowedFile(filename) <==> Lower(filename[i + 1..]) in AllowedExtensions
  {
    assert filename == filename[..i] + [Dot] + filename[i + 1..];
    AllowedFileBySuffix(filename[..i], filename[i + 1..]);
  }

  /** The check is case-insensitive: two names that lower-case to the same
      text are both accepted or both rejected. */
  lemma {:induction false} AllowedFileIgnoresCase(a: string, b: string)
    requires Lower(a) == Lower(b)
    ensures AllowedFile(a) <==> AllowedFile(b)
  {
    AllowedFileAsLowered(a);
    AllowedFileAsLowered(b);
  }

  /** Lower-casing a name does not change the verdict. */
  lemma AllowedFileAsLowered(s: string)
    ensures AllowedFile(Lower(s)) <==> AllowedFile(s)
  {
    LowerKeepsDots(s);
    if Dot in s {
      var parts := RSplitOnce(s, Dot);
      var p, t := parts[0], parts[1];
      LowerAround(p, t);
      LowerKeepsDots(t);
      AllowedFileBySuffix(p, t);
      AllowedFileBySuffix(Lower(p), Lower(t));
      LowerIdempotent(t);
    }
  }

  /** A dotted stem with an upper-case extension is accepted. */
  lemma AcceptsUpperCaseExtension()
    ensures AllowedFile("a.b.PNG")
  {
    var p, t := "a.b", "PNG";
    assert Dot !in t;
    assert Lower(t) in AllowedExtensions by {
      var l := Lower(t);
      assert LowerChar('P') == 'p' && LowerChar('N') == 'n' && LowerChar('G') == 'g';
      assert |l| == 3 && l[0] == 'p' && l[1] == 'n' && l[2] == 'g';
      assert l == "png";
    }
    assert "a.b.PNG" == p + [Dot] + t;
    AllowedFileBySuffix(p, t);
  }

  /** An allowed extension followed by another one is rejected. */
  lemma RejectsDoubleExtension()
    ensures !AllowedFile("sheet.png.txt")
  {
    var p, t := "sheet.png", "txt";
    assert Lower(t) == t && t !in AllowedExtensions;
    AllowedFileBySuffix(p, t);
    assert "sheet.png.txt" == p + [Dot] + t;
  }

  /** A name ending in a dot has an empty extension and is rejected. */
  lemma RejectsTrailingDot()
    ensures !AllowedFile("file.")
  {
    var p, t := "file", "";
    assert Lower(t) == t && t !in AllowedExtensions;
    AllowedFileBySuffix(p, t);
    assert "file." == p + [Dot] + t;
  }
}
