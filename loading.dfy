/** The format decision of `carga_de_archivo`: which reader a path is handed
    to, or the error raised for any other extension. */
module Loading {

  datatype Format = Csv | Html | Unsupported(extension: string)

  const UnsupportedPrefix: string :=
    "Hola, acabas de ingresar un documento que desconozco, con extensión: "

  predicate EndsWith(s: string, suffix: string) {
    |suffix| <= |s| && s[|s| - |suffix|..] == suffix
  }

  /** `s.split('.')[-1]`: the longest suffix of s that holds no '.'; the
      whole of s when it has no '.' at all. */
  function AfterLastDot(s: string): (e: string)
    ensures EndsWith(s, e)
    ensures '.' !in e
    ensures |e| < |s| ==> s[|s| - |e| - 1] == '.'
  {
    if s == [] || s[|s| - 1] == '.' then []
    else
      var e := AfterLastDot(s[..|s| - 1]);
      assert s[..|s| - 1][|s| - 1 - |e|..] == s[|s| - 1 - |e|..|s| - 1];
      e + [s[|s| - 1]]
  }

  /** A path ending in ".csv" is read as CSV, otherwise one ending in ".html"
      as HTML; any other path is refused, reporting the text after its last '.'. */
  function Dispatch(path: string): (f: Format)
    ensures f == Csv <==> EndsWith(path, ".csv")
    ensures f == Html <==> !EndsWith(path, ".csv") && EndsWith(path, ".html")
    ensures f.Unsupported? ==> EndsWith(path, f.extension) && '.' !in f.extension
    ensures f.Unsupported? && |f.extension| < |path| ==> path[|path| - |f.extension| - 1] == '.'
  {
    if EndsWith(path, ".csv") then Csv
    else if EndsWith(path, ".html") then Html
    else Unsupported(AfterLastDot(path))
  }

  /** The text of the error raised for an unsupported path. */
  function ErrorMessage(f: Format): (m: string)
    requires f.Unsupported?
    ensures |m| == |UnsupportedPrefix| + |f.extension|
    ensures EndsWith(m, f.extension)
    ensures m[..|UnsupportedPrefix|] == UnsupportedPrefix
  {
    UnsupportedPrefix + f.extension
  }

  /** No position inside a dot-free suffix holds a '.'. */
  lemma DotFreeSuffix(s: string, x: string)
    requires EndsWith(s, x) && '.' !in x
    ensures forall k :: |s| - |x| <= k < |s| ==> s[k] != '.'
  {
    forall k | |s| - |x| <= k < |s|
      ensures s[k] != '.'
    {
      assert s[k] == x[k - (|s| - |x|)];
    }
  }

  /** Only the suffix after the last '.' satisfies Dispatch's description of
      the reported extension. */
  lemma ExtensionIsUnique(s: string, e: string)
    requires EndsWith(s, e) && '.' !in e
    requires |e| < |s| ==> s[|s| - |e| - 1] == '.'
    ensures e == AfterLastDot(s)
  {
    var a := AfterLastDot(s);
    DotFreeSuffix(s, a);
    DotFreeSuffix(s, e);
    assert |a| <= |e| by {
      if |e| < |s| {
        assert s[|s| - |e| - 1] == '.';
      }
    }
    assert |e| <= |a| by {
      if |a| < |s| {
        assert s[|s| - |a| - 1] == '.';
      }
    }
  }

  lemma CsvAndHtmlPaths()
    ensures Dispatch("data.csv") == Csv
    ensures Dispatch("page.html") == Html
    ensures Dispatch("report.csv.html") == Html
  {
    assert "data.csv"[4..] == ".csv";
    assert "page.html"[4..] == ".html";
    assert "report.csv.html"[10..] == ".html";
  }

  /** "data.txt" is refused with "txt", and the error names that extension. */
  lemma TextFileRefused()
    ensures Dispatch("data.txt") == Unsupported("txt")
    ensures EndsWith(ErrorMessage(Dispatch("data.txt")), "txt")
  {
    assert "data.txt"[4..] != ".csv" && "data.txt"[3..] != ".html";
    ExtensionIsUnique("data.txt", "txt");
  }

  /** The extension test is case-sensitive: "data.CSV" is refused. */
  lemma UpperCaseRefused()
    ensures Dispatch("data.CSV") == Unsupported("CSV")
  {
    assert "data.CSV"[4..] != ".csv" && "data.CSV"[3..] != ".html";
    ExtensionIsUnique("data.CSV", "CSV");
  }

  /** A name without a '.' is reported whole. */
  lemma NoDotReportedWhole()
    ensures Dispatch("README") == Unsupported("README")
  {
    assert "README"[2..] != ".csv" && "README"[1..] != ".html";
    ExtensionIsUnique("README", "README");
  }
}
