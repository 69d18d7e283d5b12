/** Input-format detection by file-name suffix (the `match` on
    `filename.rfind('.')` in `main`, lifted out as a pure function). */
module FileFormat {
  import opened Wrappers

  /** The three input formats the program reads. */
  datatype Format = Newick | Phyloxml | Recphyloxml

  /** Rust's `str::rfind(c)`: the position of the last occurrence of `c`.
      Positions here count characters; since `c` is the ASCII '.', the
      suffix that starts at it is the same as with Rust's byte offsets. */
  function LastIndexOf(s: string, c: char): (r: Option<nat>)
    ensures r.None? <==> c !in s
    ensures r.Some? ==> r.value < |s| && s[r.value] == c && c !in s[r.value + 1..]
  {
    if |s| == 0 then None
    else if s[|s| - 1] == c then Some(|s| - 1)
    else LastIndexOf(s[..|s| - 1], c)
  }

  /** The suffix `filename[dot..]`, from the last '.' (included) to the end,
      or `None` when the name has no '.'. */
  function Suffix(filename: string): (r: Option<string>)
    ensures r.None? <==> '.' !in filename
    ensures r.Some? ==> |r.value| > 0 && r.value[0] == '.' && '.' !in r.value[1..]
    ensures r.Some? ==> |r.value| <= |filename| && filename[|filename| - |r.value|..] == r.value
  {
    match LastIndexOf(filename, '.')
    case None => None
    case Some(dot) => Some(filename[dot..])
  }

  /** The inner `match suffix`: exact, case-sensitive comparison. */
  function FormatOfSuffix(suffix: string): (r: Format)
    ensures r == Phyloxml <==> suffix == ".xml" || suffix == ".phyloxml"
    ensures r == Recphyloxml <==> suffix == ".recphyloxml" || suffix == ".recphylo"
  {
    if suffix == ".xml" || suffix == ".phyloxml" then Phyloxml
    else if suffix == ".recphyloxml" || suffix == ".recphylo" then Recphyloxml
    else Newick
  }

  /** The format `main` chooses for an input file name; total, never fails. */
  function DetectFormat(filename: string): (r: Format)
    ensures r == Phyloxml ==> EndsWith(filename, ".xml") || EndsWith(filename, ".phyloxml")
    ensures r == Recphyloxml ==> EndsWith(filename, ".recphyloxml") || EndsWith(filename, ".recphylo")
  {
    match Suffix(filename)
    case None => Newick
    case Some(suffix) => FormatOfSuffix(suffix)
  }

  predicate EndsWith(s: string, t: string)
  {
    |t| <= |s| && s[|s| - |t|..] == t
  }

  /** A name without a dot is read as Newick. */
  lemma NoDotIsNewick(filename: string)
    requires '.' !in filename
    ensures DetectFormat(filename) == Newick
  {
  }

  /** When `t` has exactly one dot, at its start, `s` ends with `t`
      exactly when `t` is the suffix from the last dot of `s`. */
  lemma {:induction false} EndsWithDotWord(s: string, t: string)
    requires |t| > 0 && t[0] == '.' && '.' !in t[1..]
    ensures EndsWith(s, t) <==> Suffix(s) == Some(t)
  {
    var suf := Suffix(s);
    if EndsWith(s, t) {
      var d := |s| - |t|;
      assert s[d] == '.';
      assert s[d + 1..] == t[1..];
    }
  }

  /** Phyloxml is chosen exactly for the final extensions ".xml" and ".phyloxml". */
  lemma DetectPhyloxml(filename: string)
    ensures DetectFormat(filename) == Phyloxml <==>
            EndsWith(filename, ".xml") || EndsWith(filename, ".phyloxml")
  {
    EndsWithDotWord(filename, ".xml");
    EndsWithDotWord(filename, ".phyloxml");
  }

  /** Recphyloxml is chosen exactly for the final extensions ".recphyloxml"
      and ".recphylo". */
  lemma DetectRecphyloxml(filename: string)
    ensures DetectFormat(filename) == Recphyloxml <==>
            EndsWith(filename, ".recphyloxml") || EndsWith(filename, ".recphylo")
  {
    EndsWithDotWord(filename, ".recphyloxml");
    EndsWithDotWord(filename, ".recphylo");
  }

  /** Every other name, including one with no dot at all, is read as Newick. */
  lemma DetectNewick(filename: string)
    ensures DetectFormat(filename) == Newick <==>
            !(EndsWith(filename, ".xml") || EndsWith(filename, ".phyloxml") ||
              EndsWith(filename, ".recphyloxml") || EndsWith(filename, ".recphylo"))
  {
    DetectPhyloxml(filename);
    DetectRecphyloxml(filename);
  }

  /** Only the final extension matters: a prefix in front of a name that
      already has a dot does not change the format (so "a.xml.txt" is Newick). */
  lemma {:induction false} LastExtensionDecides(prefix: string, name: string)
    requires '.' in name
    ensures DetectFormat(prefix + name) == DetectFormat(name)
  {
    var d := LastIndexOf(name, '.').value;
    var s := prefix + name;
    var ds := LastIndexOf(s, '.').value;
    assert s[|prefix| + d] == '.';
    assert s[ds..] == name[d..];
  }
}
