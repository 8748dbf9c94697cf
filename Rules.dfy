/**
 * The rules of one minifier run (AssetsRules): the rules-file parser, the
 * input-file predicate and the entry-name predicate.
 *
 * A rules file is a list of lines. A line is a directive only when its
 * lower-cased text, untrimmed, starts with one of "inputfile ",
 * "outfilename ", "entrywhitelist " or "entryblacklist "; the trimmed line is
 * then split on spaces into at most 3 (InputFile) or 2 (the others) tokens,
 * and a directive with the wrong number of tokens is skipped.
 */
module Rules {
  import opened Wrappers
  import opened Text
  import opened Wildcard
  import opened Archive
  import opened Seqs

  /** The four things the parser produces; outFile is Java's null until an OutFilename line is seen. */
  datatype RuleSet = RuleSet(
    outFile: Option<string>,
    inputFilter: map<string, string>,
    whitelist: seq<string>,
    blacklist: seq<string>)

  const NoRules := RuleSet(None, map[], [], [])

  /** What one line of the rules file says. */
  datatype Directive =
    | OutFilename(name: string)
    | InputFile(hash: string, file: string)
    | EntryWhitelist(pattern: string)
    | EntryBlacklist(pattern: string)
    | Ignored

  /**
   * Why building the rules fails: no valid OutFilename line; an OutFilename
   * token that is not a valid path (Paths.get refuses a NUL character); or an
   * OutFilename token with no file-name element (such as "/"), for which
   * Path.getFileName() is null and resolving it throws.
   */
  datatype RulesError = MissingOutFilename | InvalidOutFilename(token: string) | RootOutFilename(token: string)

  /** The token limit the directive prefix selects; 0 when the line is skipped. */
  function SplitMax(line: string): (max: nat)
    ensures max == 0 || max == 2 || max == 3
  {
    var lower := Lower(line);
    if StartsWith(lower, "inputfile ") then 3
    else if StartsWith(lower, "outfilename ")
         || StartsWith(lower, "entrywhitelist ")
         || StartsWith(lower, "entryblacklist ") then 2
    else 0
  }

  /**
   * The directive a line's tokens make: a known keyword, in any case (the
   * first token lower-cased equals the keyword lower-cased), with its exact
   * token count.
   */
  function Decide(tokens: seq<string>): Directive
  {
    if |tokens| == 0 then Ignored
    else
      var keyword := Lower(tokens[0]);
      if keyword == "outfilename" && |tokens| == 2 then OutFilename(tokens[1])
      else if keyword == "inputfile" && |tokens| == 3 then InputFile(tokens[1], tokens[2])
      else if keyword == "entrywhitelist" && |tokens| == 2 then EntryWhitelist(tokens[1])
      else if keyword == "entryblacklist" && |tokens| == 2 then EntryBlacklist(tokens[1])
      else Ignored
  }

  /** The line classifier of the parser loop. */
  function Classify(line: string): Directive
  {
    var max := SplitMax(line);
    if max == 0 then Ignored else Decide(Split(Trim(line), max))
  }

  /**
   * The output file an OutFilename token names: the output folder resolved
   * with the token's file-name element; None when it has none.
   */
  function OutFileOf(token: string, outputFolder: string): Option<string>
  {
    match FileName(token)
    case None => None
    case Some(name) => Some(Resolve(outputFolder, name))
  }

  /**
   * A token has an output file exactly when it is not all slashes; the file
   * is then named by the token's last element, without '/'.
   */
  lemma OutFileOfSpec(token: string, outputFolder: string)
    requires |token| > 0
    ensures OutFileOf(token, outputFolder).None? <==> forall i :: 0 <= i < |token| ==> token[i] == '/'
    ensures OutFileOf(token, outputFolder).Some? ==>
              exists name :: && FileName(token) == Some(name) && |name| > 0 && '/' !in name
                             && OutFileOf(token, outputFolder).value == Resolve(outputFolder, name)
  {
    FileNameSpec(token);
  }

  /**
   * The exception the OutFilename branch throws for a token, if any: Paths.get
   * refuses a NUL character, and resolve refuses the null file name of a
   * token that has none.
   */
  function OutFilenameError(token: string): Option<RulesError>
  {
    if '\0' in token then Some(InvalidOutFilename(token))
    else if FileName(token).None? then Some(RootOutFilename(token))
    else None
  }

  /**
   * A non-empty token throws exactly when it holds a NUL character or is all
   * slashes, and the NUL check comes first.
   */
  lemma OutFilenameErrorSpec(token: string)
    requires |token| > 0
    ensures OutFilenameError(token) == Some(InvalidOutFilename(token)) <==> '\0' in token
    ensures OutFilenameError(token) == Some(RootOutFilename(token))
            <==> '\0' !in token && forall i :: 0 <= i < |token| ==> token[i] == '/'
    ensures OutFilenameError(token).None?
            <==> '\0' !in token && exists i :: 0 <= i < |token| && token[i] != '/'
  {
    FileNameSpec(token);
  }

  /** The effect of one directive on the rules parsed so far. */
  function Apply(rules: RuleSet, d: Directive, outputFolder: string): Result<RuleSet, RulesError>
  {
    match d
    case OutFilename(token) =>
      (match OutFilenameError(token)
       case Some(e) => Failure(e)
       case None => Success(rules.(outFile := OutFileOf(token, outputFolder))))
    case InputFile(hash, file) =>
      Success(rules.(inputFilter := rules.inputFilter[Lower(file) := Lower(hash)]))
    case EntryWhitelist(p) => Success(rules.(whitelist := rules.whitelist + [p]))
    case EntryBlacklist(p) => Success(rules.(blacklist := rules.blacklist + [p]))
    case Ignored => Success(rules)
  }

  /** The directive of every line, in order. */
  function Directives(lines: seq<string>): (ds: seq<Directive>)
    ensures |ds| == |lines|
    decreases |lines|
  {
    if lines == [] then [] else Directives(lines[..|lines| - 1]) + [Classify(lines[|lines| - 1])]
  }

  /** The directive at a position is that line's classification. */
  lemma {:induction false} DirectivesAt(lines: seq<string>, i: nat)
    requires i < |lines|
    ensures Directives(lines)[i] == Classify(lines[i])
    decreases |lines|
  {
    var init := lines[..|lines| - 1];
    var last := Classify(lines[|lines| - 1]);
    assert Directives(lines) == Directives(init) + [last];
    if i < |init| {
      DirectivesAt(init, i);
      assert init[i] == lines[i];
      assert Directives(lines)[i] == Directives(init)[i];
    }
  }

  /** Classifying is line by line: the directives of two blocks of lines are those of each block. */
  lemma {:induction false} DirectivesConcat(a: seq<string>, b: seq<string>)
    ensures Directives(a + b) == Directives(a) + Directives(b)
    decreases |b|
  {
    if b == [] {
      assert a + b == a;
    } else {
      var init := b[..|b| - 1];
      DirectivesConcat(a, init);
      assert (a + b)[..|a + b| - 1] == a + init;
      assert (a + b)[|a + b| - 1] == b[|b| - 1];
    }
  }

  /** One turn of the parser loop: a failure so far stays, otherwise the directive is applied. */
  function Step(acc: Result<RuleSet, RulesError>, d: Directive, outputFolder: string): Result<RuleSet, RulesError>
  {
    match acc
    case Failure(e) => Failure(e)
    case Success(r) => Apply(r, d, outputFolder)
  }

  /** The parser loop: every directive applied in order, starting from rules; the first failure aborts. */
  function Scan(rules: RuleSet, ds: seq<Directive>, outputFolder: string): Result<RuleSet, RulesError>
    decreases |ds|
  {
    if ds == [] then Success(rules)
    else Step(Scan(rules, ds[..|ds| - 1], outputFolder), ds[|ds| - 1], outputFolder)
  }

  /** The check after the loop: rules without an output file are an error. */
  function Finish(scanned: Result<RuleSet, RulesError>): Result<RuleSet, RulesError>
  {
    match scanned
    case Failure(e) => Failure(e)
    case Success(r) => if r.outFile.None? then Failure(MissingOutFilename) else Success(r)
  }

  /** Building the rules from the lines of a rules file. */
  function Parse(lines: seq<string>, outputFolder: string): Result<RuleSet, RulesError>
  {
    Finish(Scan(NoRules, Directives(lines), outputFolder))
  }

  // ---------------------------------------------------------------------------
  // Reference descriptions of the parser's output, in terms of the directives alone.

  predicate IsOutFilename(d: Directive) { d.OutFilename? }
  predicate IsInputFile(d: Directive) { d.InputFile? }
  predicate IsWhitelist(d: Directive) { d.EntryWhitelist? }
  predicate IsBlacklist(d: Directive) { d.EntryBlacklist? }

  /** An OutFilename directive whose token makes the parser throw. */
  predicate Throws(d: Directive)
  {
    d.OutFilename? && OutFilenameError(d.name).Some?
  }

  /** The position of the last OutFilename directive, if any. */
  function LastOutFilename(ds: seq<Directive>): (r: Option<nat>)
    ensures r.Some? ==> r.value < |ds| && IsOutFilename(ds[r.value])
                        && forall j :: r.value < j < |ds| ==> !IsOutFilename(ds[j])
    ensures r.None? ==> forall j :: 0 <= j < |ds| ==> !IsOutFilename(ds[j])
    decreases |ds|
  {
    if ds == [] then None
    else if IsOutFilename(ds[|ds| - 1]) then Some(|ds| - 1)
    else LastOutFilename(ds[..|ds| - 1])
  }


  /** The lower-cased file names of all InputFile directives. */
  function InputFileNames(ds: seq<Directive>): set<string>
    decreases |ds|
  {
    if ds == [] then {}
    else
      var last := ds[|ds| - 1];
      InputFileNames(ds[..|ds| - 1]) + if last.InputFile? then {Lower(last.file)} else {}
  }

  /** The patterns of the EntryWhitelist directives, in order. */
  function WhitelistOf(ds: seq<Directive>): seq<string>
    decreases |ds|
  {
    if ds == [] then []
    else
      var last := ds[|ds| - 1];
      WhitelistOf(ds[..|ds| - 1]) + if last.EntryWhitelist? then [last.pattern] else []
  }

  /** The patterns of the EntryBlacklist directives, in order. */
  function BlacklistOf(ds: seq<Directive>): seq<string>
    decreases |ds|
  {
    if ds == [] then []
    else
      var last := ds[|ds| - 1];
      BlacklistOf(ds[..|ds| - 1]) + if last.EntryBlacklist? then [last.pattern] else []
  }

  // ---------------------------------------------------------------------------
  // Properties of the parser.

  /** Scanning one more directive is one more step. */
  lemma ScanSnoc(rules: RuleSet, ds: seq<Directive>, d: Directive, outputFolder: string)
    ensures Scan(rules, ds + [d], outputFolder) == Step(Scan(rules, ds, outputFolder), d, outputFolder)
  {
    assert (ds + [d])[..|ds|] == ds;
  }

  /** A successful scan was successful one directive earlier, and its last directive applied. */
  lemma ScanLast(rules: RuleSet, ds: seq<Directive>, outputFolder: string)
    requires ds != [] && Scan(rules, ds, outputFolder).Success?
    ensures Scan(rules, ds[..|ds| - 1], outputFolder).Success?
    ensures Scan(rules, ds, outputFolder)
            == Apply(Scan(rules, ds[..|ds| - 1], outputFolder).value, ds[|ds| - 1], outputFolder)
  {
  }

  /** One directive fails exactly when it is an OutFilename token that throws, with that token's error. */
  lemma ApplyFails(rules: RuleSet, d: Directive, outputFolder: string)
    ensures Apply(rules, d, outputFolder).Failure? <==> Throws(d)
    ensures Apply(rules, d, outputFolder).Failure? ==>
              Apply(rules, d, outputFolder).error == OutFilenameError(d.name).value
  {
  }

  /** Only an OutFilename directive sets the output file. */
  lemma ApplyOutFile(rules: RuleSet, d: Directive, outputFolder: string)
    requires Apply(rules, d, outputFolder).Success?
    ensures Apply(rules, d, outputFolder).value.outFile
            == if d.OutFilename? then OutFileOf(d.name, outputFolder) else rules.outFile
  {
  }

  /** Only an InputFile directive changes the filter, by mapping its name to its hash. */
  lemma ApplyFilter(rules: RuleSet, d: Directive, outputFolder: string)
    requires Apply(rules, d, outputFolder).Success?
    ensures Apply(rules, d, outputFolder).value.inputFilter
            == if d.InputFile? then rules.inputFilter[Lower(d.file) := Lower(d.hash)] else rules.inputFilter
  {
  }

  /** Only the list directives change the lists, by appending their pattern. */
  lemma ApplyLists(rules: RuleSet, d: Directive, outputFolder: string)
    requires Apply(rules, d, outputFolder).Success?
    ensures Apply(rules, d, outputFolder).value.whitelist
            == rules.whitelist + if d.EntryWhitelist? then [d.pattern] else []
    ensures Apply(rules, d, outputFolder).value.blacklist
            == rules.blacklist + if d.EntryBlacklist? then [d.pattern] else []
  {
  }

  /** One directive adds at most its own lower-cased file name to the filter's keys. */
  lemma ApplyKeys(rules: RuleSet, d: Directive, outputFolder: string)
    requires Apply(rules, d, outputFolder).Success?
    ensures Apply(rules, d, outputFolder).value.inputFilter.Keys
            == rules.inputFilter.Keys + if d.InputFile? then {Lower(d.file)} else {}
  {
    if d.InputFile? {
      var m := rules.inputFilter[Lower(d.file) := Lower(d.hash)];
      assert Apply(rules, d, outputFolder).value.inputFilter == m;
      assert m.Keys == rules.inputFilter.Keys + {Lower(d.file)};
    } else {
      assert Apply(rules, d, outputFolder).value.inputFilter == rules.inputFilter;
    }
  }

  /** The parser fails exactly when some OutFilename token throws, and never with MissingOutFilename. */
  lemma {:induction false} ScanFails(rules: RuleSet, ds: seq<Directive>, outputFolder: string)
    ensures Scan(rules, ds, outputFolder).Failure?
            <==> exists i :: 0 <= i < |ds| && Throws(ds[i])
    ensures Scan(rules, ds, outputFolder).Failure? ==>
              !Scan(rules, ds, outputFolder).error.MissingOutFilename?
    decreases |ds|
  {
    if ds != [] {
      var init := ds[..|ds| - 1];
      var last := ds[|ds| - 1];
      ScanFails(rules, init, outputFolder);
      var acc := Scan(rules, init, outputFolder);
      assert Scan(rules, ds, outputFolder) == Step(acc, last, outputFolder);
      if acc.Failure? {
        var i :| 0 <= i < |init| && Throws(init[i]);
        assert ds[i] == init[i];
      } else {
        ApplyFails(acc.value, last, outputFolder);
        if !Throws(last) {
          forall i | 0 <= i < |ds|
            ensures !Throws(ds[i])
          {
            if i < |init| {
              assert ds[i] == init[i];
            }
          }
        }
      }
    }
  }

  /** The last OutFilename directive decides the output file; with none, it is left as it was. */
  lemma {:induction false} ScanOutFile(rules: RuleSet, ds: seq<Directive>, outputFolder: string)
    requires Scan(rules, ds, outputFolder).Success?
    ensures var out := Scan(rules, ds, outputFolder).value.outFile;
            match LastOutFilename(ds)
            case None => out == rules.outFile
            case Some(i) => out == OutFileOf(ds[i].name, outputFolder) && out.Some?
    decreases |ds|
  {
    if ds != [] {
      var init := ds[..|ds| - 1];
      var last := ds[|ds| - 1];
      ScanLast(rules, ds, outputFolder);
      ScanOutFile(rules, init, outputFolder);
      var before := Scan(rules, init, outputFolder).value;
      ApplyOutFile(before, last, outputFolder);
      var out := Scan(rules, ds, outputFolder).value.outFile;
      if IsOutFilename(last) {
        assert LastOutFilename(ds) == Some(|ds| - 1);
        assert out == OutFileOf(last.name, outputFolder);
      } else {
        assert LastOutFilename(ds) == LastOutFilename(init);
        assert out == before.outFile;
        match LastOutFilename(init) {
          case None =>
          case Some(i) => assert ds[i] == init[i];
        }
      }
    }
  }

  /** The filter's keys are the lower-cased names of the InputFile directives, added to those it had. */
  lemma {:induction false} ScanFilterKeys(rules: RuleSet, ds: seq<Directive>, outputFolder: string)
    requires Scan(rules, ds, outputFolder).Success?
    ensures Scan(rules, ds, outputFolder).value.inputFilter.Keys
            == rules.inputFilter.Keys + InputFileNames(ds)
    decreases |ds|
  {
    if ds != [] {
      var init := ds[..|ds| - 1];
      var last := ds[|ds| - 1];
      ScanLast(rules, ds, outputFolder);
      ScanFilterKeys(rules, init, outputFolder);
      ApplyKeys(Scan(rules, init, outputFolder).value, last, outputFolder);
    }
  }

  /** A name maps to the lower-cased hash of the last InputFile directive naming it. */
  lemma {:induction false} ScanFilterValue(rules: RuleSet, ds: seq<Directive>, outputFolder: string, i: nat)
    requires Scan(rules, ds, outputFolder).Success?
    requires i < |ds| && IsInputFile(ds[i])
    requires forall j :: i < j < |ds| && IsInputFile(ds[j]) ==> Lower(ds[j].file) != Lower(ds[i].file)
    ensures var filter := Scan(rules, ds, outputFolder).value.inputFilter;
            Lower(ds[i].file) in filter && filter[Lower(ds[i].file)] == Lower(ds[i].hash)
    decreases |ds|
  {
    var init := ds[..|ds| - 1];
    ScanLast(rules, ds, outputFolder);
    ApplyFilter(Scan(rules, init, outputFolder).value, ds[|ds| - 1], outputFolder);
    if i < |ds| - 1 {
      assert forall j :: 0 <= j < |init| ==> init[j] == ds[j];
      ScanFilterValue(rules, init, outputFolder, i);
    }
  }

  /** The lists hold the patterns of their directives, in order, after those they had. */
  lemma {:induction false} ScanLists(rules: RuleSet, ds: seq<Directive>, outputFolder: string)
    requires Scan(rules, ds, outputFolder).Success?
    ensures Scan(rules, ds, outputFolder).value.whitelist == rules.whitelist + WhitelistOf(ds)
    ensures Scan(rules, ds, outputFolder).value.blacklist == rules.blacklist + BlacklistOf(ds)
    decreases |ds|
  {
    if ds != [] {
      var init := ds[..|ds| - 1];
      ScanLast(rules, ds, outputFolder);
      ScanLists(rules, init, outputFolder);
      ApplyLists(Scan(rules, init, outputFolder).value, ds[|ds| - 1], outputFolder);
    }
  }

  /** One pattern per EntryWhitelist directive. */
  lemma {:induction false} WhitelistCount(ds: seq<Directive>)
    ensures |WhitelistOf(ds)| == |IndicesWhere(ds, IsWhitelist)|
    decreases |ds|
  {
    if ds == [] {
      IndicesWhereEmpty(IsWhitelist);
    } else {
      var init := ds[..|ds| - 1];
      WhitelistCount(init);
      assert ds == init + [ds[|ds| - 1]];
      IndicesWhereSnoc(init, ds[|ds| - 1], IsWhitelist);
    }
  }

  /** One pattern per EntryBlacklist directive. */
  lemma {:induction false} BlacklistCount(ds: seq<Directive>)
    ensures |BlacklistOf(ds)| == |IndicesWhere(ds, IsBlacklist)|
    decreases |ds|
  {
    if ds == [] {
      IndicesWhereEmpty(IsBlacklist);
    } else {
      var init := ds[..|ds| - 1];
      BlacklistCount(init);
      assert ds == init + [ds[|ds| - 1]];
      IndicesWhereSnoc(init, ds[|ds| - 1], IsBlacklist);
    }
  }

  /** Removing a skipped directive anywhere leaves the result unchanged. */
  lemma {:induction false} IgnoredChangesNothing(rules: RuleSet, before: seq<Directive>,
                                                 after: seq<Directive>, outputFolder: string)
    ensures Scan(rules, before + [Ignored] + after, outputFolder) == Scan(rules, before + after, outputFolder)
    decreases |after|
  {
    if after == [] {
      IgnoredLast(rules, before, outputFolder);
    } else {
      IgnoredChangesNothing(rules, before, after[..|after| - 1], outputFolder);
      IgnoredStep(rules, before, after, outputFolder);
    }
  }

  /** The base case of IgnoredChangesNothing: an ignored directive at the end. */
  lemma IgnoredLast(rules: RuleSet, before: seq<Directive>, outputFolder: string)
    ensures Scan(rules, before + [Ignored] + [], outputFolder) == Scan(rules, before + [], outputFolder)
  {
    ScanSnoc(rules, before, Ignored, outputFolder);
    assert before + [Ignored] + [] == before + [Ignored];
    assert before + [] == before;
  }

  /** The inductive step of IgnoredChangesNothing: one more directive after the ignored one. */
  lemma IgnoredStep(rules: RuleSet, before: seq<Directive>, after: seq<Directive>, outputFolder: string)
    requires after != []
    requires Scan(rules, before + [Ignored] + after[..|after| - 1], outputFolder)
             == Scan(rules, before + after[..|after| - 1], outputFolder)
    ensures Scan(rules, before + [Ignored] + after, outputFolder) == Scan(rules, before + after, outputFolder)
  {
    var init := after[..|after| - 1];
    var last := after[|after| - 1];
    ConcatLast(before + [Ignored], after);
    ConcatLast(before, after);
    ScanSnoc(rules, before + [Ignored] + init, last, outputFolder);
    ScanSnoc(rules, before + init, last, outputFolder);
  }

  lemma ConcatLast<T>(a: seq<T>, b: seq<T>)
    requires b != []
    ensures a + b == (a + b[..|b| - 1]) + [b[|b| - 1]]
  {
    assert b == b[..|b| - 1] + [b[|b| - 1]];
  }

  lemma IgnoredLineChangesNothing(before: seq<string>, line: string, after: seq<string>, outputFolder: string)
    requires Classify(line).Ignored?
    ensures Parse(before + [line] + after, outputFolder) == Parse(before + after, outputFolder)
  {
    DirectivesConcat(before + [line], after);
    DirectivesConcat(before, [line]);
    assert Directives([line]) == [Ignored] by {
      assert [line][..0] == [];
    }
    DirectivesConcat(before, after);
    IgnoredChangesNothing(NoRules, Directives(before), Directives(after), outputFolder);
  }

  /**
   * Building the rules succeeds exactly when no OutFilename token throws and
   * at least one OutFilename line is present; without one it fails with
   * MissingOutFilename.
   */
  lemma ParseSucceeds(lines: seq<string>, outputFolder: string)
    ensures var ds := Directives(lines);
            Parse(lines, outputFolder).Success? <==>
              (forall i :: 0 <= i < |ds| ==> !Throws(ds[i]))
              && exists i :: 0 <= i < |ds| && IsOutFilename(ds[i])
    ensures var ds := Directives(lines);
            Parse(lines, outputFolder) == Failure(MissingOutFilename) <==>
              forall i :: 0 <= i < |ds| ==> !IsOutFilename(ds[i])
  {
    var ds := Directives(lines);
    ScanFails(NoRules, ds, outputFolder);
    if Scan(NoRules, ds, outputFolder).Success? {
      ScanOutFile(NoRules, ds, outputFolder);
    }
  }

  /** What a successful build holds, stated in terms of the directives of the lines. */
  lemma ParseContents(lines: seq<string>, outputFolder: string)
    requires Parse(lines, outputFolder).Success?
    ensures var ds := Directives(lines);
            && LastOutFilename(ds).Some?
            && Parse(lines, outputFolder).value.outFile == OutFileOf(ds[LastOutFilename(ds).value].name, outputFolder)
    ensures Parse(lines, outputFolder).value.inputFilter.Keys == InputFileNames(Directives(lines))
    ensures |Parse(lines, outputFolder).value.inputFilter| == |InputFileNames(Directives(lines))|
    ensures Parse(lines, outputFolder).value.whitelist == WhitelistOf(Directives(lines))
    ensures Parse(lines, outputFolder).value.blacklist == BlacklistOf(Directives(lines))
    ensures |Parse(lines, outputFolder).value.whitelist| == |IndicesWhere(Directives(lines), IsWhitelist)|
    ensures |Parse(lines, outputFolder).value.blacklist| == |IndicesWhere(Directives(lines), IsBlacklist)|
  {
    var ds := Directives(lines);
    ScanOutFile(NoRules, ds, outputFolder);
    ScanFilterKeys(NoRules, ds, outputFolder);
    ScanLists(NoRules, ds, outputFolder);
    WhitelistCount(ds);
    BlacklistCount(ds);
  }

  // ---------------------------------------------------------------------------
  // Properties of the line classifier.

  lemma LowerConcat(a: string, b: string)
    ensures Lower(a + b) == Lower(a) + Lower(b)
  {
    assert forall i :: 0 <= i < |a + b| ==> Lower(a + b)[i] == (Lower(a) + Lower(b))[i];
  }

  lemma NotStartsWith(s: string, p: string)
    requires |p| > 0 && (s == [] || s[0] != p[0])
    ensures !StartsWith(s, p)
  {
    if |p| <= |s| {
      assert s[..|p|][0] == s[0];
    }
  }

  /** The prefix test is made on the untrimmed line: leading white space skips the line. */
  lemma LeadingWhitespaceIgnored(line: string)
    requires |line| > 0 && IsTrimmed(line[0])
    ensures Classify(line) == Ignored
  {
    var lower := Lower(line);
    assert lower[0] == line[0];
    NotStartsWith(lower, "inputfile ");
    NotStartsWith(lower, "outfilename ");
    NotStartsWith(lower, "entrywhitelist ");
    NotStartsWith(lower, "entryblacklist ");
    assert SplitMax(line) == 0;
  }

  lemma LowerNoSpace(w: string)
    requires NoSpace(Lower(w))
    ensures NoSpace(w)
  {
    assert forall i :: 0 <= i < |w| ==> Lower(w)[i] == LowerChar(w[i]);
  }

  /** A keyword, one space and a one-word argument split into those two tokens. */
  lemma SplitKeywordLine(keyword: string, arg: string)
    requires |keyword| > 0 && NoSpace(keyword)
    requires |arg| > 0 && arg[0] != ' '
    ensures Split(keyword + " " + arg, 2) == [keyword, arg]
  {
    assert keyword + " " + arg == keyword + (" " + arg);
    SplitWord(keyword, " " + arg, 2);
    SplitSkipsSpaces(arg, 1);
    SplitLast(arg);
  }

  /** A line that is neither empty at its ends nor starts with white space is its own trim. */
  lemma TrimKeywordLine(line: string)
    requires |line| > 0 && !IsTrimmed(line[0]) && !IsTrimmed(line[|line| - 1])
    ensures Trim(line) == line
  {
  }

  /** A keyword whose lower-cased form is known, followed by a space, starts the lower-cased line. */
  lemma KeywordStarts(keyword: string, rest: string, lowerKeyword: string)
    requires Lower(keyword) == lowerKeyword && |lowerKeyword| > 0
    ensures StartsWith(Lower(keyword + " " + rest), lowerKeyword + " ")
    ensures Lower(keyword + " " + rest)[0] == lowerKeyword[0]
  {
    var tail := " " + rest;
    ConcatAssoc(keyword, " ", rest);
    LowerConcat(keyword, tail);
    assert Lower(tail)[0] == ' ';
    StartsWithConcat(lowerKeyword, Lower(tail));
  }

  lemma ConcatAssoc<T>(a: seq<T>, b: seq<T>, c: seq<T>)
    ensures a + b + c == a + (b + c)
  {
  }

  /** a + b starts with a followed by the first element of b, and with the first element of a. */
  lemma StartsWithConcat(a: string, b: string)
    requires |a| > 0 && |b| > 0
    ensures StartsWith(a + b, a + [b[0]])
    ensures (a + b)[0] == a[0]
  {
    assert (a + b)[..|a| + 1] == a + [b[0]];
  }

  /** A keyword is a word whose first letter is not white space when its lower-cased form is. */
  lemma KeywordWord(keyword: string, lowerKeyword: string)
    requires Lower(keyword) == lowerKeyword
    requires |lowerKeyword| > 0 && NoSpace(lowerKeyword) && !IsTrimmed(lowerKeyword[0])
    ensures |keyword| > 0 && NoSpace(keyword) && !IsTrimmed(keyword[0])
  {
    LowerNoSpace(keyword);
    assert Lower(keyword)[0] == LowerChar(keyword[0]);
  }

  /** A two-token directive line: a keyword, one space and an argument without white space at its ends. */
  lemma ClassifyTwoTokens(keyword: string, arg: string)
    requires |keyword| > 0 && NoSpace(keyword) && !IsTrimmed(keyword[0])
    requires |arg| > 0 && !IsTrimmed(arg[0]) && !IsTrimmed(arg[|arg| - 1])
    requires SplitMax(keyword + " " + arg) == 2
    ensures Classify(keyword + " " + arg) == Decide([keyword, arg])
  {
    TrimKeywordLine(keyword + " " + arg);
    SplitKeywordLine(keyword, arg);
  }

  /** The prefix test of a two-token directive keyword. */
  lemma TwoTokenMax(keyword: string, arg: string, lowerKeyword: string)
    requires Lower(keyword) == lowerKeyword
    requires lowerKeyword == "outfilename" || lowerKeyword == "entrywhitelist" || lowerKeyword == "entryblacklist"
    ensures SplitMax(keyword + " " + arg) == 2
  {
    KeywordStarts(keyword, arg, lowerKeyword);
    NotStartsWith(Lower(keyword + " " + arg), "inputfile ");
  }

  /** "OutFilename name", in any case, is an OutFilename directive. */
  lemma ClassifyOutFilename(keyword: string, name: string)
    requires Lower(keyword) == "outfilename"
    requires |name| > 0 && !IsTrimmed(name[0]) && !IsTrimmed(name[|name| - 1])
    ensures Classify(keyword + " " + name) == OutFilename(name)
  {
    KeywordWord(keyword, "outfilename");
    TwoTokenMax(keyword, name, "outfilename");
    ClassifyTwoTokens(keyword, name);
  }

  /** "EntryWhitelist pattern", in any case, is an EntryWhitelist directive. */
  lemma ClassifyWhitelist(keyword: string, pattern: string)
    requires Lower(keyword) == "entrywhitelist"
    requires |pattern| > 0 && !IsTrimmed(pattern[0]) && !IsTrimmed(pattern[|pattern| - 1])
    ensures Classify(keyword + " " + pattern) == EntryWhitelist(pattern)
  {
    KeywordWord(keyword, "entrywhitelist");
    TwoTokenMax(keyword, pattern, "entrywhitelist");
    ClassifyTwoTokens(keyword, pattern);
  }

  /** "EntryBlacklist pattern", in any case, is an EntryBlacklist directive. */
  lemma ClassifyBlacklist(keyword: string, pattern: string)
    requires Lower(keyword) == "entryblacklist"
    requires |pattern| > 0 && !IsTrimmed(pattern[0]) && !IsTrimmed(pattern[|pattern| - 1])
    ensures Classify(keyword + " " + pattern) == EntryBlacklist(pattern)
  {
    KeywordWord(keyword, "entryblacklist");
    TwoTokenMax(keyword, pattern, "entryblacklist");
    ClassifyTwoTokens(keyword, pattern);
    DecideBlacklist(keyword, pattern);
  }

  lemma DecideBlacklist(keyword: string, pattern: string)
    requires Lower(keyword) == "entryblacklist"
    ensures Decide([keyword, pattern]) == EntryBlacklist(pattern)
  {
    assert "entryblacklist"[5] != "entrywhitelist"[5];
  }

  /** A hash without white space, one space and a name split into those two tokens. */
  lemma SplitHashLine(hash: string, name: string)
    requires |hash| > 0 && NoSpace(hash)
    requires |name| > 0 && name[0] != ' '
    ensures Split(" " + hash + " " + name, 2) == [hash, name]
  {
    assert " " + hash + " " + name == " " + (hash + " " + name);
    SplitSkipsSpaces(hash + " " + name, 2);
    SplitKeywordLine(hash, name);
  }

  /** "InputFile hash name", in any case, is an InputFile directive. */
  lemma ClassifyInputFile(keyword: string, hash: string, name: string)
    requires Lower(keyword) == "inputfile"
    requires |hash| > 0 && NoSpace(hash) && !IsTrimmed(hash[0])
    requires |name| > 0 && !IsTrimmed(name[0]) && !IsTrimmed(name[|name| - 1])
    ensures Classify(keyword + " " + hash + " " + name) == InputFile(hash, name)
  {
    var line := keyword + " " + hash + " " + name;
    KeywordWord(keyword, "inputfile");
    InputFileMax(keyword, hash, name);
    TrimKeywordLine(line);
    SplitInputFileLine(keyword, hash, name);
    ClassifyOf(line, 3, [keyword, hash, name]);
    DecideInputFile(keyword, hash, name);
  }

  lemma DecideInputFile(keyword: string, hash: string, name: string)
    requires Lower(keyword) == "inputfile"
    ensures Decide([keyword, hash, name]) == InputFile(hash, name)
  {
  }

  /** The prefix test of the InputFile keyword. */
  lemma InputFileMax(keyword: string, hash: string, name: string)
    requires Lower(keyword) == "inputfile"
    ensures SplitMax(keyword + " " + hash + " " + name) == 3
  {
    var rest := hash + " " + name;
    assert keyword + " " + hash + " " + name == keyword + " " + rest;
    KeywordStarts(keyword, rest, "inputfile");
  }

  /** A keyword, a hash and a name, separated by single spaces, split into those three tokens. */
  lemma SplitInputFileLine(keyword: string, hash: string, name: string)
    requires |keyword| > 0 && NoSpace(keyword)
    requires |hash| > 0 && NoSpace(hash)
    requires |name| > 0 && name[0] != ' '
    ensures Split(keyword + " " + hash + " " + name, 3) == [keyword, hash, name]
  {
    assert keyword + " " + hash + " " + name == keyword + (" " + hash + " " + name);
    SplitWord(keyword, " " + hash + " " + name, 3);
    SplitHashLine(hash, name);
  }

  /** Classify in terms of the token limit and the tokens of the trimmed line. */
  lemma ClassifyOf(line: string, max: nat, tokens: seq<string>)
    requires max > 0 && SplitMax(line) == max && Split(Trim(line), max) == tokens
    ensures Classify(line) == Decide(tokens)
  {
  }

  // ---------------------------------------------------------------------------
  // The predicates.

  /**
   * acceptInputFile: an empty filter accepts every file; otherwise the
   * lower-cased name must be a key, and unless its stored hash is "0" the
   * file's md5 (hex) must equal the stored hash ignoring case. A file whose
   * bytes cannot be read is rejected.
   */
  function AcceptInputFile(rules: RuleSet, file: SourceFile, md5Hex: Bytes -> string): (r: bool)
    ensures |rules.inputFilter| == 0 ==> r
    ensures |rules.inputFilter| != 0 && Lower(file.name) !in rules.inputFilter ==> !r
    ensures Lower(file.name) in rules.inputFilter && rules.inputFilter[Lower(file.name)] == "0" ==> r
    ensures |rules.inputFilter| != 0 && Lower(file.name) in rules.inputFilter
            && rules.inputFilter[Lower(file.name)] != "0" ==>
              (r <==> file.bytes.Some?
                      && EqualsIgnoreCase(rules.inputFilter[Lower(file.name)], md5Hex(file.bytes.value)))
  {
    if |rules.inputFilter| == 0 then true
    else
      var name := Lower(file.name);
      if name !in rules.inputFilter then false
      else
        var md5 := rules.inputFilter[name];
        if md5 == "0" then true
        else
          match file.bytes
          case None => false
          case Some(b) => EqualsIgnoreCase(md5, md5Hex(b))
  }

  /** The early-return scan over one list: does any pattern match the name? */
  function AnyMatches(patterns: seq<string>, name: string): (r: bool)
    ensures r <==> exists i :: 0 <= i < |patterns| && Matches(name, patterns[i])
    decreases |patterns|
  {
    if patterns == [] then false
    else if Matches(name, patterns[0]) then true
    else
      var r := AnyMatches(patterns[1..], name);
      assert forall i :: 1 <= i < |patterns| ==> patterns[i] == patterns[1..][i - 1];
      r
  }

  /**
   * acceptEntryFilename: a name matched by a blacklist pattern is rejected,
   * whatever the whitelist says; otherwise it is accepted exactly when some
   * whitelist pattern matches it.
   */
  function AcceptEntryFilename(rules: RuleSet, name: string): (r: bool)
    ensures r <==> (forall i :: 0 <= i < |rules.blacklist| ==> !Matches(name, rules.blacklist[i]))
                   && exists j :: 0 <= j < |rules.whitelist| && Matches(name, rules.whitelist[j])
    ensures (exists i :: 0 <= i < |rules.blacklist| && Matches(name, rules.blacklist[i])) ==> !r
  {
    if AnyMatches(rules.blacklist, name) then false
    else AnyMatches(rules.whitelist, name)
  }

  /**
   * With the hash "0" as last InputFile rule for a name, a file of that name,
   * compared ignoring case, is accepted whatever it holds.
   */
  lemma HashBypass(lines: seq<string>, outputFolder: string, i: nat, file: SourceFile, md5Hex: Bytes -> string)
    requires Parse(lines, outputFolder).Success?
    requires i < |lines| && IsInputFile(Classify(lines[i])) && Classify(lines[i]).hash == "0"
    requires Lower(Classify(lines[i]).file) == Lower(file.name)
    requires forall j :: i < j < |lines| && IsInputFile(Classify(lines[j])) ==>
               Lower(Classify(lines[j]).file) != Lower(file.name)
    ensures AcceptInputFile(Parse(lines, outputFolder).value, file, md5Hex)
  {
    var ds := Directives(lines);
    DirectivesAt(lines, i);
    forall j | i < j < |ds| && IsInputFile(ds[j])
      ensures Lower(ds[j].file) != Lower(ds[i].file)
    {
      DirectivesAt(lines, j);
    }
    ScanFilterValue(NoRules, ds, outputFolder, i);
    assert Lower("0") == "0";
  }

  /**
   * The rules of a whole file of rules: building them and matching a name are
   * the steps main and the minifier perform. Any glob of the form "*" + suffix
   * with a literal suffix accepts the names ending in that suffix, unless
   * blacklisted.
   */
  lemma SuffixRuleAccepts(rules: RuleSet, j: nat, prefix: string, suffix: string)
    requires j < |rules.whitelist| && rules.whitelist[j] == "*" + suffix && Literal(suffix)
    requires forall i :: 0 <= i < |rules.blacklist| ==> !Matches(prefix + suffix, rules.blacklist[i])
    ensures AcceptEntryFilename(rules, prefix + suffix)
  {
    StarSuffixMatches(prefix, suffix);
  }

  // ---------------------------------------------------------------------------
  // The rules object.

  /**
   * AssetsRules: the parsed state, updated in place by the parser. The ghost
   * fields remember the lines and the output folder it was built from.
   */
  class AssetsRules {
    var outFile: Option<string>
    var inputFileFilter: map<string, string>
    var entryWhitelistFilter: seq<string>
    var entryBlacklistFilter: seq<string>
    ghost var lines: seq<string>
    ghost var outputFolder: string

    function View(): RuleSet
      reads this
    {
      RuleSet(outFile, inputFileFilter, entryWhitelistFilter, entryBlacklistFilter)
    }

    /** Built from its lines and output folder. */
    ghost predicate Valid()
      reads this
    {
      Parse(lines, outputFolder) == Success(View())
    }

    constructor Empty()
      ensures View() == NoRules && lines == [] && outputFolder == ""
    {
      outFile := None;
      inputFileFilter := map[];
      entryWhitelistFilter := [];
      entryBlacklistFilter := [];
      lines := [];
      outputFolder := "";
    }

    /** parseRulesFile: applies every line in order, then insists on an output file. */
    method ParseRulesFile(lines: seq<string>, outputFolder: string) returns (err: Option<RulesError>)
      modifies this
      ensures var res := Finish(Scan(old(View()), Directives(lines), outputFolder));
              && (res.Success? ==> err.None? && View() == res.value)
              && (res.Failure? ==> err == Some(res.error))
    {
      ghost var start := View();
      ghost var ds := Directives(lines);
      var i := 0;
      while i < |lines|
        invariant 0 <= i <= |lines|
        invariant Scan(start, ds[..i], outputFolder) == Success(View())
      {
        var d := Classify(lines[i]);
        DirectivesAt(lines, i);
        ScanExtend(start, ds, outputFolder, i);
        ghost var before := View();
        match d {
          case OutFilename(token) =>
            if '\0' in token {
              ScanPrefixFails(start, ds, outputFolder, i + 1);
              return Some(InvalidOutFilename(token));
            }
            match FileName(token) {
              case None =>
                ScanPrefixFails(start, ds, outputFolder, i + 1);
                return Some(RootOutFilename(token));
              case Some(name) =>
                outFile := Some(Resolve(outputFolder, name));
                assert OutFileOf(token, outputFolder) == outFile;
            }
          case InputFile(hash, file) =>
            inputFileFilter := inputFileFilter[Lower(file) := Lower(hash)];
          case EntryWhitelist(p) =>
            entryWhitelistFilter := entryWhitelistFilter + [p];
          case EntryBlacklist(p) =>
            entryBlacklistFilter := entryBlacklistFilter + [p];
          case Ignored =>
        }
        assert Apply(before, d, outputFolder) == Success(View());
        i := i + 1;
      }
      assert ds[..i] == ds;
      if outFile.None? {
        return Some(MissingOutFilename);
      }
      return None;
    }

    /** The constructor: builds the rules from the lines, or fails as the source's RuntimeException does. */
    static method Create(lines: seq<string>, outputFolder: string) returns (r: Result<AssetsRules, RulesError>)
      ensures r.Success? ==> fresh(r.value) && r.value.Valid()
                             && r.value.lines == lines && r.value.outputFolder == outputFolder
                             && Parse(lines, outputFolder) == Success(r.value.View())
      ensures r.Failure? ==> Parse(lines, outputFolder) == Failure(r.error)
    {
      var rules := new AssetsRules.Empty();
      var err := rules.ParseRulesFile(lines, outputFolder);
      if err.Some? {
        return Failure(err.value);
      }
      rules.lines := lines;
      rules.outputFolder := outputFolder;
      return Success(rules);
    }

    /** getOutFile: the output folder resolved with the file name of the last OutFilename line. */
    function GetOutFile(): (f: string)
      reads this
      requires Valid()
      ensures LastOutFilename(Directives(lines)).Some?
      ensures Some(f) == OutFileOf(Directives(lines)[LastOutFilename(Directives(lines)).value].name, outputFolder)
    {
      ParseContents(lines, outputFolder);
      outFile.value
    }

    /** getNumInputFileFilters: the number of distinct lower-cased InputFile names. */
    function GetNumInputFileFilters(): (n: nat)
      reads this
      requires Valid()
      ensures n == |InputFileNames(Directives(lines))|
    {
      ParseContents(lines, outputFolder);
      |inputFileFilter|
    }

    /** getNumWhitelistFilters: the number of EntryWhitelist lines. */
    function GetNumWhitelistFilters(): (n: nat)
      reads this
      requires Valid()
      ensures n == |IndicesWhere(Directives(lines), IsWhitelist)|
    {
      ParseContents(lines, outputFolder);
      |entryWhitelistFilter|
    }

    /** getNumBlacklistFilters: the number of EntryBlacklist lines. */
    function GetNumBlacklistFilters(): (n: nat)
      reads this
      requires Valid()
      ensures n == |IndicesWhere(Directives(lines), IsBlacklist)|
    {
      ParseContents(lines, outputFolder);
      |entryBlacklistFilter|
    }

    /** accept(File), the file filter handed to the folder listing: the input-file predicate. */
    function Accept(file: SourceFile, md5Hex: Bytes -> string): (r: bool)
      reads this
      ensures r == AcceptInputFile(View(), file, md5Hex)
    {
      AcceptInputFile(View(), file, md5Hex)
    }

    /** accept(File, String): never accepts. */
    function AcceptInFolder(folder: string, name: string): (r: bool)
      ensures !r
    {
      false
    }

    /** test(String), the entry predicate handed to the extractor: the entry-name predicate. */
    function Test(entryName: string): (r: bool)
      reads this
      ensures r == AcceptEntryFilename(View(), entryName)
    {
      AcceptEntryFilename(View(), entryName)
    }
  }

  /** The scan of one more directive is one more step. */
  lemma ScanExtend(rules: RuleSet, ds: seq<Directive>, outputFolder: string, i: nat)
    requires i < |ds|
    ensures Scan(rules, ds[..i + 1], outputFolder) == Step(Scan(rules, ds[..i], outputFolder), ds[i], outputFolder)
  {
    assert ds[..i + 1][..i] == ds[..i];
  }

  /** A failing directive makes the whole scan fail with its error. */
  lemma {:induction false} ScanPrefixFails(rules: RuleSet, ds: seq<Directive>, outputFolder: string, n: nat)
    requires 0 < n <= |ds|
    requires Scan(rules, ds[..n - 1], outputFolder).Success?
    requires Throws(ds[n - 1])
    ensures Finish(Scan(rules, ds, outputFolder)) == Failure(OutFilenameError(ds[n - 1].name).value)
  {
    assert ds[..n][..n - 1] == ds[..n - 1];
    ScanStaysFailed(rules, ds, outputFolder, n, |ds|);
    assert ds[..|ds|] == ds;
  }

  /** Once a scan fails it stays failed, with the same error. */
  lemma {:induction false} ScanStaysFailed(rules: RuleSet, ds: seq<Directive>, outputFolder: string,
                                           n: nat, m: nat)
    requires n <= m <= |ds|
    requires Scan(rules, ds[..n], outputFolder).Failure?
    ensures Scan(rules, ds[..m], outputFolder) == Scan(rules, ds[..n], outputFolder)
    decreases m - n
  {
    if m > n {
      ScanStaysFailed(rules, ds, outputFolder, n, m - 1);
      var prefix := ds[..m];
      assert prefix[..|prefix| - 1] == ds[..m - 1];
      assert Scan(rules, prefix, outputFolder) == Scan(rules, ds[..m - 1], outputFolder);
    }
  }
}
