/**
 The upload-filename check of the spreadsheet upload service: a file may be
 uploaded only when its name has an extension, the extension is the text after
 the last dot, and that text, lower-cased, is on the spreadsheet whitelist.
 */
module App {
  import opened StrOps

  /** The whitelist of spreadsheet extensions, in lower case. */
  const AllowedExtensions: set<string> := {"xlsx", "xls"}

  /** The whitelisted extensions are already in lower case. */
  lemma WhitelistIsLowerCase()
    ensures forall e :: e in AllowedExtensions ==> Lower(e) == e
  {
  }

  /**
   The part of a dotted filename after its last dot, which holds no dot and is
   shorter than the name.
   */
  function Extension(filename: string): (ext: string)
    requires '.' in filename
    ensures '.' !in ext && |ext| < |filename|
  {
    RSplitOnce(filename, '.')[1]
  }

  /**
   `allowed_file`: the name contains a dot and its last-dot extension,
   lower-cased, is whitelisted. The extension is only looked at once a dot
   is known to be present, as with Python's short-circuit `and`.
   */
  predicate AllowedFile(filename: string) {
    '.' in filename && Lower(Extension(filename)) in AllowedExtensions
  }

  /** `s` ends with `suffix` when case is ignored. */
  predicate HasSuffixIgnoringCase(s: string, suffix: string) {
    |suffix| <= |s| && EqualIgnoringCase(s[|s| - |suffix|..], suffix)
  }

  /**
   Independent reading of the check: the name ends, ignoring case, with a dot
   followed by a whitelisted extension.
   */
  predicate EndsWithSpreadsheetSuffix(filename: string) {
    exists e :: e in AllowedExtensions && HasSuffixIgnoringCase(filename, "." + e)
  }

  /**
   For any stem and any dot-free extension, the verdict on `stem.ext` is
   whether the lower-cased extension is whitelisted: the stem, however many
   dots it holds, plays no role.
   */
  lemma ExtensionAfterLastDot(stem: string, ext: string)
    requires '.' !in ext
    ensures AllowedFile(stem + "." + ext) <==> Lower(ext) in AllowedExtensions
  {
    RSplitOnceUnique(stem, '.', ext);
  }

  /** A name without a dot is rejected, whatever it ends with. */
  lemma NoDotRejected(filename: string)
    requires '.' !in filename
    ensures !AllowedFile(filename)
  {
  }

  /** The extension is the suffix of the name that follows its last dot. */
  lemma ExtensionIsSuffix(filename: string)
    requires '.' in filename
    ensures filename[|filename| - |Extension(filename)| - 1] == '.'
    ensures filename[|filename| - |Extension(filename)|..] == Extension(filename)
  {
    var p := RSplitOnce(filename, '.');
    assert filename == p[0] + ['.'] + p[1];
  }

  /** A name ending in a dot has an empty extension and is rejected. */
  lemma TrailingDotRejected(stem: string)
    ensures '.' in stem + "." && Extension(stem + ".") == ""
    ensures !AllowedFile(stem + ".")
  {
    assert stem + "." == stem + ['.'] + "";
    RSplitOnceUnique(stem, '.', "");
  }

  /** Every stem, the empty one included, is accepted with either extension. */
  lemma AnyStemAccepted(stem: string)
    ensures AllowedFile(stem + ".xls") && AllowedFile(stem + ".xlsx")
  {
    assert stem + ".xls" == stem + "." + "xls";
    assert stem + ".xlsx" == stem + "." + "xlsx";
    WhitelistIsLowerCase();
    ExtensionAfterLastDot(stem, "xls");
    ExtensionAfterLastDot(stem, "xlsx");
  }

  /**
   The verdict is case-blind: two names that agree once lower-cased get the
   same verdict.
   */
  lemma IgnoresCase(f: string, g: string)
    requires EqualIgnoringCase(f, g)
    ensures AllowedFile(f) == AllowedFile(g)
  {
    LowerKeepsDots(f);
    LowerKeepsDots(g);
    if '.' in f {
      ExtensionOfLower(f);
      ExtensionOfLower(g);
    }
  }

  /** Lower-casing a dotted name lower-cases its extension and nothing more. */
  lemma ExtensionOfLower(filename: string)
    requires '.' in filename
    ensures '.' in Lower(filename)
    ensures Extension(Lower(filename)) == Lower(Extension(filename))
  {
    var p := RSplitOnce(filename, '.');
    LowerAppend(p[0] + ['.'], p[1]);
    LowerAppend(p[0], ['.']);
    assert Lower(['.']) == ['.'];
    LowerKeepsDots(p[1]);
    RSplitOnceUnique(Lower(p[0]), '.', Lower(p[1]));
  }

  /**
   The verdict depends on the name only through its lower-cased last-dot
   extension.
   */
  lemma ExtensionDecides(f: string, g: string)
    requires '.' in f && '.' in g
    requires EqualIgnoringCase(Extension(f), Extension(g))
    ensures AllowedFile(f) == AllowedFile(g)
  {
  }

  /** The check accepts exactly the names ending, ignoring case, in `.xlsx` or `.xls`. */
  lemma AllowedFileIffSpreadsheetSuffix(filename: string)
    ensures AllowedFile(filename) <==> EndsWithSpreadsheetSuffix(filename)
  {
    if AllowedFile(filename) {
      AllowedHasSuffix(filename);
    }
    if EndsWithSpreadsheetSuffix(filename) {
      var e :| e in AllowedExtensions && HasSuffixIgnoringCase(filename, "." + e);
      SuffixIsAllowed(filename, e);
    }
  }

  /** An accepted name ends with a dot and its lower-cased extension, up to case. */
  lemma AllowedHasSuffix(filename: string)
    requires AllowedFile(filename)
    ensures HasSuffixIgnoringCase(filename, "." + Lower(Extension(filename)))
  {
    var p := RSplitOnce(filename, '.');
    var e := Lower(p[1]);
    var suffix := "." + p[1];
    assert filename == p[0] + suffix;
    assert filename[|filename| - |suffix|..] == suffix;
    LowerAppend(".", p[1]);
    LowerAppend(".", e);
    WhitelistIsLowerCase();
  }

  /** A name ending, up to case, in a dot and a whitelisted extension is accepted. */
  lemma SuffixIsAllowed(filename: string, e: string)
    requires e in AllowedExtensions && HasSuffixIgnoringCase(filename, "." + e)
    ensures AllowedFile(filename)
  {
    var k := |filename| - |e| - 1;
    var stem, tail := filename[..k], filename[k..];
    assert filename == stem + tail;
    WhitelistIsLowerCase();
    LowerAppend(".", e);
    assert Lower(tail) == "." + e;
    assert tail[0] == '.' by {
      LowerCharDot(tail[0]);
    }
    var ext := tail[1..];
    assert tail == "." + ext;
    LowerAppend(".", ext);
    assert Lower(ext) == e;
    assert '.' !in ext by {
      assert '.' !in e;
      LowerKeepsDots(ext);
    }
    assert filename == stem + "." + ext;
    ExtensionAfterLastDot(stem, ext);
  }

  /** A bare extension without a dot is not accepted. */
  lemma ExampleNoDot()
    ensures !AllowedFile("xlsx")
  {
  }

  /** A multi-dot name is judged by its last part: this one is accepted. */
  lemma ExampleLastPartAccepted()
    ensures AllowedFile("report.tar.xlsx")
  {
    assert "report.tar.xlsx" == "report.tar" + "." + "xlsx";
    ExtensionAfterLastDot("report.tar", "xlsx");
    WhitelistIsLowerCase();
  }

  /** A spreadsheet extension that is not last does not help. */
  lemma ExampleLastPartRejected()
    ensures !AllowedFile("data.xlsx.txt")
  {
    assert "data.xlsx.txt" == "data.xlsx" + "." + "txt";
    ExtensionAfterLastDot("data.xlsx", "txt");
    assert Lower("txt") !in AllowedExtensions by {
      var r := Lower("txt");
      assert |r| == 3 && r[0] == LowerChar('t') == 't';
      assert r != "xls" by { assert "xls"[0] == 'x'; }
    }
  }

  /** `"XLSX".lower()` is `"xlsx"`. */
  lemma LowerXlsxUpper()
    ensures Lower("XLSX") == "xlsx"
  {
    var r := Lower("XLSX");
    assert r[0] == LowerChar('X') == 'x';
    assert r[1] == LowerChar('L') == 'l';
    assert r[2] == LowerChar('S') == 's';
    assert r[3] == LowerChar('X') == 'x';
  }

  /** `"Xls".lower()` is `"xls"`. */
  lemma LowerXlsMixed()
    ensures Lower("Xls") == "xls"
  {
    var r := Lower("Xls");
    assert r[0] == LowerChar('X') == 'x';
    assert r[1] == LowerChar('l') == 'l';
    assert r[2] == LowerChar('s') == 's';
  }

  /** An upper-case extension is accepted. */
  lemma ExampleUpperCase()
    ensures AllowedFile("A.XLSX")
  {
    assert "A.XLSX" == "A" + "." + "XLSX";
    LowerXlsxUpper();
    ExtensionAfterLastDot("A", "XLSX");
  }

  /** A mixed-case extension is accepted. */
  lemma ExampleMixedCase()
    ensures AllowedFile("b.Xls")
  {
    assert "b.Xls" == "b" + "." + "Xls";
    LowerXlsMixed();
    ExtensionAfterLastDot("b", "Xls");
  }

  /** A spreadsheet-like extension off the whitelist is rejected. */
  lemma ExampleCsvRejected()
    ensures !AllowedFile("a.csv")
  {
    assert "a.csv" == "a" + "." + "csv";
    ExtensionAfterLastDot("a", "csv");
    assert Lower("csv") !in AllowedExtensions by {
      var r := Lower("csv");
      assert |r| == 3 && r[0] == LowerChar('c') == 'c';
      assert r != "xls" by { assert "xls"[0] == 'x'; }
    }
  }

  /** An extension that merely starts with a whitelisted one is rejected. */
  lemma ExampleXlsmRejected()
    ensures !AllowedFile("a.xlsm")
  {
    assert "a.xlsm" == "a" + "." + "xlsm";
    ExtensionAfterLastDot("a", "xlsm");
    assert Lower("xlsm") !in AllowedExtensions by {
      var r := Lower("xlsm");
      assert |r| == 4 && r[3] == LowerChar('m') == 'm';
      assert r != "xlsx" by { assert "xlsx"[3] == 'x'; }
    }
  }
}
