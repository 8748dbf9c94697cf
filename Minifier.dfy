/**
 * The filter-and-merge pipeline (JKAServerAssetsMinifier): the input files
 * the rules select, the count check, the selective extraction of every
 * selected archive into the staging folder, and the repack of the staging
 * folder into the output archive.
 *
 * The staging folder is a map from relative path to file content; the
 * timestamp map is the zipTimeMap field, from the lower-cased,
 * separator-normalised entry name to milliseconds.
 */
module Minifier {
  import opened Wrappers
  import opened Text
  import opened Archive
  import opened Seqs
  import opened Rules

  // ---------------------------------------------------------------------------
  // Extraction of one archive, as functions of its entries.

  /** An entry is written to staging when the entry predicate accepts its name and it is not a directory. */
  predicate Extracts(rules: RuleSet, e: Entry)
  {
    AcceptEntryFilename(rules, e.name) && !e.isDirectory
  }

  /** The path, relative to the staging folder, an entry is written to. */
  function StagingPath(name: string): string
  {
    SystemPath(name)
  }

  /** The zipTimeMap key of an entry name: lower-cased, then separator-normalised. */
  function TimeKey(name: string): string
  {
    SystemPath(Lower(name))
  }

  /** The staging folder after the entries es were extracted into m, in order. */
  function Staged(m: map<string, Bytes>, rules: RuleSet, es: seq<Entry>): map<string, Bytes>
    decreases |es|
  {
    if es == [] then m
    else
      var before := Staged(m, rules, es[..|es| - 1]);
      var e := es[|es| - 1];
      if Extracts(rules, e) then before[StagingPath(e.name) := e.content] else before
  }

  /** The timestamp map after the entries es were extracted, in order. */
  function Stamped(t: map<string, int>, rules: RuleSet, es: seq<Entry>): map<string, int>
    decreases |es|
  {
    if es == [] then t
    else
      var before := Stamped(t, rules, es[..|es| - 1]);
      var e := es[|es| - 1];
      if Extracts(rules, e) && e.time.Some? then before[TimeKey(e.name) := e.time.value] else before
  }

  /** The number of entries extracted from es. */
  function ExtractedCount(rules: RuleSet, es: seq<Entry>): (n: nat)
    ensures n <= |es|
    decreases |es|
  {
    if es == [] then 0
    else ExtractedCount(rules, es[..|es| - 1]) + if Extracts(rules, es[|es| - 1]) then 1 else 0
  }

  /** The staging paths of the extracted entries. */
  function ExtractedPaths(rules: RuleSet, es: seq<Entry>): set<string>
    decreases |es|
  {
    if es == [] then {}
    else
      var e := es[|es| - 1];
      ExtractedPaths(rules, es[..|es| - 1]) + if Extracts(rules, e) then {StagingPath(e.name)} else {}
  }

  /** Extracting one more entry. */
  lemma ExtractStep(m: map<string, Bytes>, t: map<string, int>, rules: RuleSet, es: seq<Entry>, i: nat)
    requires i < |es|
    ensures var e := es[i];
            && Staged(m, rules, es[..i + 1])
               == (if Extracts(rules, e) then Staged(m, rules, es[..i])[StagingPath(e.name) := e.content]
                   else Staged(m, rules, es[..i]))
            && Stamped(t, rules, es[..i + 1])
               == (if Extracts(rules, e) && e.time.Some? then Stamped(t, rules, es[..i])[TimeKey(e.name) := e.time.value]
                   else Stamped(t, rules, es[..i]))
            && ExtractedCount(rules, es[..i + 1])
               == ExtractedCount(rules, es[..i]) + (if Extracts(rules, e) then 1 else 0)
  {
    assert es[..i + 1][..i] == es[..i];
  }

  // ---------------------------------------------------------------------------
  // Properties of one extraction.

  /** The count is the number of positions holding an accepted file entry. */
  lemma {:induction false} ExtractedCountSpec(rules: RuleSet, es: seq<Entry>)
    ensures ExtractedCount(rules, es) == |IndicesWhere(es, (e: Entry) => Extracts(rules, e))|
    decreases |es|
  {
    var P := (e: Entry) => Extracts(rules, e);
    if es == [] {
      IndicesWhereEmpty(P);
    } else {
      var init := es[..|es| - 1];
      var x := es[|es| - 1];
      ExtractedCountSpec(rules, init);
      assert es == init + [x];
      IndicesWhereSnoc(init, x, P);
      var before := IndicesWhere(init, P);
      if P(x) {
        assert |before + {|init|}| == |before| + 1;
      } else {
        assert IndicesWhere(es, P) == before;
      }
    }
  }

  /** Staging gains exactly the paths of the extracted entries. */
  lemma {:induction false} StagedKeys(m: map<string, Bytes>, rules: RuleSet, es: seq<Entry>)
    ensures Staged(m, rules, es).Keys == m.Keys + ExtractedPaths(rules, es)
    decreases |es|
  {
    if es != [] {
      StagedKeys(m, rules, es[..|es| - 1]);
    }
  }

  /** Last write wins: a path holds the content of the last extracted entry written to it. */
  lemma {:induction false} StagedLastWins(m: map<string, Bytes>, rules: RuleSet, es: seq<Entry>, k: nat)
    requires k < |es| && Extracts(rules, es[k])
    requires forall j :: k < j < |es| && Extracts(rules, es[j]) ==> StagingPath(es[j].name) != StagingPath(es[k].name)
    ensures StagingPath(es[k].name) in Staged(m, rules, es)
    ensures Staged(m, rules, es)[StagingPath(es[k].name)] == es[k].content
    decreases |es|
  {
    var init := es[..|es| - 1];
    if k < |init| {
      assert init[k] == es[k];
      forall j | k < j < |init| && Extracts(rules, init[j])
        ensures StagingPath(init[j].name) != StagingPath(init[k].name)
      {
        assert init[j] == es[j];
      }
      StagedLastWins(m, rules, init, k);
    }
  }

  /** A path no extracted entry is written to keeps what it held, or stays absent. */
  lemma {:induction false} StagedUntouched(m: map<string, Bytes>, rules: RuleSet, es: seq<Entry>, p: string)
    requires forall j :: 0 <= j < |es| && Extracts(rules, es[j]) ==> StagingPath(es[j].name) != p
    ensures p in Staged(m, rules, es) <==> p in m
    ensures p in m ==> Staged(m, rules, es)[p] == m[p]
    decreases |es|
  {
    if es != [] {
      var init := es[..|es| - 1];
      forall j | 0 <= j < |init| && Extracts(rules, init[j])
        ensures StagingPath(init[j].name) != p
      {
        assert init[j] == es[j];
      }
      StagedUntouched(m, rules, init, p);
    }
  }

  /**
   * The timestamp of a key is that of the last extracted entry with that key
   * that carries a time; entries without a time do not overwrite it.
   */
  lemma {:induction false} StampedLastWins(t: map<string, int>, rules: RuleSet, es: seq<Entry>, k: nat)
    requires k < |es| && Extracts(rules, es[k]) && es[k].time.Some?
    requires forall j :: k < j < |es| && Extracts(rules, es[j]) && es[j].time.Some? ==>
               TimeKey(es[j].name) != TimeKey(es[k].name)
    ensures TimeKey(es[k].name) in Stamped(t, rules, es)
    ensures Stamped(t, rules, es)[TimeKey(es[k].name)] == es[k].time.value
    decreases |es|
  {
    var init := es[..|es| - 1];
    if k < |init| {
      assert init[k] == es[k];
      forall j | k < j < |init| && Extracts(rules, init[j]) && init[j].time.Some?
        ensures TimeKey(init[j].name) != TimeKey(init[k].name)
      {
        assert init[j] == es[j];
      }
      StampedLastWins(t, rules, init, k);
    }
  }

  /** A key no timed, extracted entry maps to keeps its earlier timestamp, or stays absent. */
  lemma {:induction false} StampedUntouched(t: map<string, int>, rules: RuleSet, es: seq<Entry>, key: string)
    requires forall j :: 0 <= j < |es| && Extracts(rules, es[j]) && es[j].time.Some? ==> TimeKey(es[j].name) != key
    ensures key in Stamped(t, rules, es) <==> key in t
    ensures key in t ==> Stamped(t, rules, es)[key] == t[key]
    decreases |es|
  {
    if es != [] {
      var init := es[..|es| - 1];
      forall j | 0 <= j < |init| && Extracts(rules, init[j]) && init[j].time.Some?
        ensures TimeKey(init[j].name) != key
      {
        assert init[j] == es[j];
      }
      StampedUntouched(t, rules, init, key);
    }
  }

  /** Extracting a + b is extracting a, then b into the result; the counts add up. */
  lemma {:induction false} ExtractConcat(m: map<string, Bytes>, t: map<string, int>, rules: RuleSet,
                                         a: seq<Entry>, b: seq<Entry>)
    ensures Staged(m, rules, a + b) == Staged(Staged(m, rules, a), rules, b)
    ensures Stamped(t, rules, a + b) == Stamped(Stamped(t, rules, a), rules, b)
    ensures ExtractedCount(rules, a + b) == ExtractedCount(rules, a) + ExtractedCount(rules, b)
    decreases |b|
  {
    if b == [] {
      assert a + b == a;
    } else {
      var init := b[..|b| - 1];
      ExtractConcat(m, t, rules, a, init);
      assert (a + b)[..|a + b| - 1] == a + init;
      assert (a + b)[|a + b| - 1] == b[|b| - 1];
    }
  }

  /** An entry that is not extracted (rejected by the predicate, or a directory) changes nothing. */
  lemma RejectedChangesNothing(m: map<string, Bytes>, t: map<string, int>, rules: RuleSet,
                               before: seq<Entry>, e: Entry, after: seq<Entry>)
    requires !Extracts(rules, e)
    ensures Staged(m, rules, before + [e] + after) == Staged(m, rules, before + after)
    ensures Stamped(t, rules, before + [e] + after) == Stamped(t, rules, before + after)
    ensures ExtractedCount(rules, before + [e] + after) == ExtractedCount(rules, before + after)
  {
    ExtractConcat(m, t, rules, before + [e], after);
    ExtractConcat(m, t, rules, before, [e]);
    ExtractConcat(m, t, rules, before, after);
    assert [e][..0] == [];
  }

  /** An extracted entry without a time leaves the timestamp map as it was. */
  lemma UntimedKeepsStamps(t: map<string, int>, rules: RuleSet, before: seq<Entry>, e: Entry, after: seq<Entry>)
    requires e.time.None?
    ensures Stamped(t, rules, before + [e] + after) == Stamped(t, rules, before + after)
  {
    ExtractConcat(map[], t, rules, before + [e], after);
    ExtractConcat(map[], t, rules, before, [e]);
    ExtractConcat(map[], t, rules, before, after);
    assert [e][..0] == [];
  }

  // ---------------------------------------------------------------------------
  // The input files.

  /** The files of the input folder the file filter accepts, in listing order. */
  function Selected(rules: RuleSet, files: seq<SourceFile>, md5Hex: Bytes -> string): seq<SourceFile>
    decreases |files|
  {
    if files == [] then []
    else
      var f := files[|files| - 1];
      Selected(rules, files[..|files| - 1], md5Hex) + if AcceptInputFile(rules, f, md5Hex) then [f] else []
  }

  /** A file is selected exactly when it is listed and the input predicate accepts it. */
  lemma {:induction false} SelectedSpec(rules: RuleSet, files: seq<SourceFile>, md5Hex: Bytes -> string)
    ensures |Selected(rules, files, md5Hex)| <= |files|
    ensures forall f :: f in Selected(rules, files, md5Hex) <==> f in files && AcceptInputFile(rules, f, md5Hex)
    decreases |files|
  {
    if files != [] {
      var init := files[..|files| - 1];
      SelectedSpec(rules, init, md5Hex);
      assert files == init + [files[|files| - 1]];
    }
  }

  /** The lower-cased names of some files. */
  function LowerNames(files: seq<SourceFile>): set<string>
    decreases |files|
  {
    if files == [] then {} else LowerNames(files[..|files| - 1]) + {Lower(files[|files| - 1].name)}
  }

  /** No two files whose names differ only in case. */
  predicate DistinctIgnoringCase(files: seq<SourceFile>)
  {
    forall i, j :: 0 <= i < j < |files| ==> Lower(files[i].name) != Lower(files[j].name)
  }

  /** The check minify makes before doing any work. */
  predicate CountMismatch(rules: RuleSet, selected: seq<SourceFile>)
  {
    |rules.inputFilter| != 0 && |selected| != |rules.inputFilter|
  }

  /** LowerNames holds the lower-cased name of every file, and nothing else. */
  lemma {:induction false} LowerNamesSpec(files: seq<SourceFile>)
    ensures forall i :: 0 <= i < |files| ==> Lower(files[i].name) in LowerNames(files)
    ensures forall x :: x in LowerNames(files) ==> exists i :: 0 <= i < |files| && Lower(files[i].name) == x
    decreases |files|
  {
    if files != [] {
      var init := files[..|files| - 1];
      LowerNamesSpec(init);
      forall x | x in LowerNames(files)
        ensures exists i :: 0 <= i < |files| && Lower(files[i].name) == x
      {
        if x in LowerNames(init) {
          var i :| 0 <= i < |init| && Lower(init[i].name) == x;
          assert files[i] == init[i];
        } else {
          var i := |files| - 1;
          assert 0 <= i < |files| && Lower(files[i].name) == x;
        }
      }
      forall i | 0 <= i < |files|
        ensures Lower(files[i].name) in LowerNames(files)
      {
        if i < |init| {
          assert files[i] == init[i];
        }
      }
    }
  }

  /** Files apart by their case-insensitive names have as many lower-cased names as files. */
  lemma {:induction false} LowerNamesCard(files: seq<SourceFile>)
    requires DistinctIgnoringCase(files)
    ensures |LowerNames(files)| == |files|
    decreases |files|
  {
    if files != [] {
      var init := files[..|files| - 1];
      var last := Lower(files[|files| - 1].name);
      forall i, j | 0 <= i < j < |init|
        ensures Lower(init[i].name) != Lower(init[j].name)
      {
        assert init[i] == files[i] && init[j] == files[j];
      }
      LowerNamesCard(init);
      LowerNamesSpec(init);
      forall x | x in LowerNames(init)
        ensures x != last
      {
        var i :| 0 <= i < |init| && Lower(init[i].name) == x;
        assert files[i] == init[i];
      }
    }
  }

  /** Selection keeps files apart by the case-insensitive name when the listing does. */
  lemma {:induction false} SelectedDistinct(rules: RuleSet, files: seq<SourceFile>, md5Hex: Bytes -> string)
    requires DistinctIgnoringCase(files)
    ensures DistinctIgnoringCase(Selected(rules, files, md5Hex))
    decreases |files|
  {
    if files != [] {
      var init := files[..|files| - 1];
      var last := files[|files| - 1];
      assert forall i :: 0 <= i < |init| ==> init[i] == files[i];
      SelectedDistinct(rules, init, md5Hex);
      SelectedSpec(rules, init, md5Hex);
      var s := Selected(rules, init, md5Hex);
      if AcceptInputFile(rules, last, md5Hex) {
        var t := s + [last];
        forall i, j | 0 <= i < j < |t|
          ensures Lower(t[i].name) != Lower(t[j].name)
        {
          if j == |s| {
            assert t[i] == s[i] && s[i] in init;
          } else {
            assert t[i] == s[i] && t[j] == s[j];
          }
        }
      }
    }
  }

  /**
   * With a non-empty filter, every selected file's lower-cased name is a key
   * of the filter; so when no two listed names differ only in case, the
   * count check passes exactly when every key names a selected file.
   */
  lemma CountCheck(rules: RuleSet, files: seq<SourceFile>, md5Hex: Bytes -> string)
    requires |rules.inputFilter| != 0
    requires DistinctIgnoringCase(files)
    ensures LowerNames(Selected(rules, files, md5Hex)) <= rules.inputFilter.Keys
    ensures !CountMismatch(rules, Selected(rules, files, md5Hex))
            <==> LowerNames(Selected(rules, files, md5Hex)) == rules.inputFilter.Keys
  {
    var s := Selected(rules, files, md5Hex);
    SelectedSpec(rules, files, md5Hex);
    SelectedDistinct(rules, files, md5Hex);
    LowerNamesSpec(s);
    LowerNamesCard(s);
    var names := LowerNames(s);
    assert names <= rules.inputFilter.Keys by {
      forall x | x in names
        ensures x in rules.inputFilter
      {
        var i :| 0 <= i < |s| && Lower(s[i].name) == x;
        assert s[i] in s;
      }
    }
    assert |rules.inputFilter.Keys| == |rules.inputFilter|;
    if |s| == |rules.inputFilter| {
      assert |rules.inputFilter.Keys - names| == 0;
    }
  }

  // ---------------------------------------------------------------------------
  // The entries of all selected archives, in order.

  /** The entries of an archive; an archive that cannot be opened contributes none. */
  function EntriesOf(f: SourceFile): seq<Entry>
  {
    if f.entries.Some? then f.entries.value else []
  }

  function Flatten(files: seq<SourceFile>): seq<Entry>
    decreases |files|
  {
    if files == [] then [] else Flatten(files[..|files| - 1]) + EntriesOf(files[|files| - 1])
  }

  lemma FlattenExtend(files: seq<SourceFile>, i: nat)
    requires i < |files|
    ensures Flatten(files[..i + 1]) == Flatten(files[..i]) + EntriesOf(files[i])
  {
    assert files[..i + 1][..i] == files[..i];
  }

  /** The position of the first file that cannot be opened as an archive. */
  function FirstUnopenable(files: seq<SourceFile>): (r: Option<nat>)
    ensures r.Some? ==> r.value < |files| && files[r.value].entries.None?
                        && forall j :: 0 <= j < r.value ==> files[j].entries.Some?
    ensures r.None? ==> forall j :: 0 <= j < |files| ==> files[j].entries.Some?
    decreases |files|
  {
    if files == [] then None
    else if files[0].entries.None? then Some(0)
    else
      match FirstUnopenable(files[1..])
      case None => None
      case Some(k) => Some(k + 1)
  }

  // ---------------------------------------------------------------------------
  // The repack.

  /**
   * The output entry of a staged file: named by its relative path, stamped
   * from the timestamp map under its lower-cased path when that key is
   * present, and holding the file's bytes, or nothing when reading it fails
   * (the entry was already put when the read threw).
   */
  function RepackEntry(p: string, staging: map<string, Bytes>, timeMap: map<string, int>,
                       unreadable: set<string>): OutEntry
    requires p in staging
  {
    OutEntry(p,
             if Lower(p) in timeMap then Some(timeMap[Lower(p)]) else None,
             if p in unreadable then [] else staging[p])
  }

  function Names(out: seq<OutEntry>): set<string>
    decreases |out|
  {
    if out == [] then {} else Names(out[..|out| - 1]) + {out[|out| - 1].name}
  }

  /** out is a repack of staging: one entry per staged file, in some order, each as RepackEntry says. */
  predicate IsRepackOf(out: seq<OutEntry>, staging: map<string, Bytes>, timeMap: map<string, int>,
                       unreadable: set<string>)
  {
    Names(out) == staging.Keys && PartialRepack(out, staging, timeMap, unreadable)
  }

  lemma {:induction false} NamesSpec(out: seq<OutEntry>)
    ensures forall p :: p in Names(out) <==> exists i :: 0 <= i < |out| && out[i].name == p
    decreases |out|
  {
    if out != [] {
      var init := out[..|out| - 1];
      NamesSpec(init);
      assert forall i :: 0 <= i < |init| ==> init[i] == out[i];
    }
  }

  /** The first entries of a repack: distinct names, each entry as RepackEntry says. */
  predicate PartialRepack(out: seq<OutEntry>, staging: map<string, Bytes>, timeMap: map<string, int>,
                          unreadable: set<string>)
  {
    && (forall i, j :: 0 <= i < j < |out| ==> out[i].name != out[j].name)
    && forall i :: 0 <= i < |out| ==>
         out[i].name in staging && out[i] == RepackEntry(out[i].name, staging, timeMap, unreadable)
  }

  /** Appending the entry of a staged file not yet written keeps a partial repack one. */
  lemma RepackStep(out: seq<OutEntry>, p: string, staging: map<string, Bytes>, timeMap: map<string, int>,
                   unreadable: set<string>)
    requires PartialRepack(out, staging, timeMap, unreadable)
    requires p in staging && p !in Names(out)
    ensures var out' := out + [RepackEntry(p, staging, timeMap, unreadable)];
            && PartialRepack(out', staging, timeMap, unreadable)
            && Names(out') == Names(out) + {p}
  {
    var entry := RepackEntry(p, staging, timeMap, unreadable);
    var out' := out + [entry];
    NamesSpec(out);
    assert forall i :: 0 <= i < |out| ==> out[i].name != p;
    assert out'[..|out'| - 1] == out;
    assert forall i :: 0 <= i < |out| ==> out'[i] == out[i];
    forall i, j | 0 <= i < j < |out'|
      ensures out'[i].name != out'[j].name
    {
      if j < |out| {
        assert out'[i].name == out[i].name && out'[j].name == out[j].name;
      } else {
        assert out'[i].name == out[i].name && out'[j].name == p;
      }
    }
    forall i | 0 <= i < |out'|
      ensures out'[i].name in staging && out'[i] == RepackEntry(out'[i].name, staging, timeMap, unreadable)
    {
      if i < |out| {
        assert out'[i] == out[i];
      }
    }
  }

  /** A repack holds one entry per staged file. */
  lemma RepackSize(out: seq<OutEntry>, staging: map<string, Bytes>, timeMap: map<string, int>,
                   unreadable: set<string>)
    requires IsRepackOf(out, staging, timeMap, unreadable)
    ensures |out| == |staging|
  {
    NamesCard(out);
    assert |staging.Keys| == |staging|;
  }

  lemma {:induction false} NamesCard(out: seq<OutEntry>)
    requires forall i, j :: 0 <= i < j < |out| ==> out[i].name != out[j].name
    ensures |Names(out)| == |out|
    decreases |out|
  {
    if out != [] {
      var init := out[..|out| - 1];
      NamesSpec(init);
      NamesCard(init);
      assert out[|out| - 1].name !in Names(init);
    }
  }

  /**
   * Timestamps survive the round trip: the last accepted, timed entry with
   * a given lower-cased name stamps the repacked entry of its path; the
   * lookup under the lower-cased relative path finds the key extraction
   * stored, because lower-casing and separator normalisation commute.
   */
  lemma TimeRoundTrip(t: map<string, int>, rules: RuleSet, es: seq<Entry>, k: nat,
                      out: seq<OutEntry>, unreadable: set<string>)
    requires k < |es| && Extracts(rules, es[k]) && es[k].time.Some?
    requires forall j :: k < j < |es| && Extracts(rules, es[j]) && es[j].time.Some? ==>
               TimeKey(es[j].name) != TimeKey(es[k].name)
    requires IsRepackOf(out, Staged(map[], rules, es), Stamped(t, rules, es), unreadable)
    ensures exists i :: 0 <= i < |out| && out[i].name == StagingPath(es[k].name) && out[i].time == es[k].time
  {
    var p := StagingPath(es[k].name);
    StagedKeys(map[], rules, es);
    ExtractedPathsHas(rules, es, k);
    NamesSpec(out);
    assert p in Names(out);
    var i :| 0 <= i < |out| && out[i].name == p;
    StampedLastWins(t, rules, es, k);
    LowerSystemPath(es[k].name);
    assert Lower(p) == TimeKey(es[k].name);
    assert out[i] == RepackEntry(p, Staged(map[], rules, es), Stamped(t, rules, es), unreadable);
  }

  /**
   * Contents survive the round trip: the last accepted entry written to a
   * path is the content of that path's repacked entry, unless reading the
   * staged file fails.
   */
  lemma ContentRoundTrip(t: map<string, int>, rules: RuleSet, es: seq<Entry>, k: nat,
                         out: seq<OutEntry>, unreadable: set<string>)
    requires k < |es| && Extracts(rules, es[k])
    requires forall j :: k < j < |es| && Extracts(rules, es[j]) ==> StagingPath(es[j].name) != StagingPath(es[k].name)
    requires StagingPath(es[k].name) !in unreadable
    requires IsRepackOf(out, Staged(map[], rules, es), t, unreadable)
    ensures exists i :: 0 <= i < |out| && out[i].name == StagingPath(es[k].name) && out[i].content == es[k].content
  {
    var p := StagingPath(es[k].name);
    StagedLastWins(map[], rules, es, k);
    NamesSpec(out);
    assert p in Names(out);
    var i :| 0 <= i < |out| && out[i].name == p;
    assert out[i] == RepackEntry(p, Staged(map[], rules, es), t, unreadable);
  }

  lemma {:induction false} ExtractedPathsHas(rules: RuleSet, es: seq<Entry>, k: nat)
    requires k < |es| && Extracts(rules, es[k])
    ensures StagingPath(es[k].name) in ExtractedPaths(rules, es)
    decreases |es|
  {
    var init := es[..|es| - 1];
    if k < |init| {
      assert init[k] == es[k];
      ExtractedPathsHas(rules, init, k);
    }
  }

  // ---------------------------------------------------------------------------
  // The minifier.

  /** How a run of minify ends. */
  datatype Outcome =
    | MissingAssets            // the count check failed; nothing was done
    | StagingFailed            // the staging folder could not be created or emptied
    | ExtractFailed            // a selected file could not be opened as an archive
    | Done(extracted: nat)     // the repack was attempted and the staging folder dropped

  /** The fields minify changes. */
  datatype Snapshot = Snapshot(
    zipTimeMap: map<string, int>,
    staging: map<string, Bytes>,
    stagingExists: bool,
    written: map<string, seq<OutEntry>>)

  /**
   * What a run of minify does, from the state before to the state after,
   * given the rules, the selected files, the output file and the outcome of
   * each step that may fail:
   *  - on a failed count check, or when the staging folder cannot be
   *    prepared, nothing changes;
   *  - when a selected file cannot be opened, the files before it were
   *    extracted into a freshly emptied staging folder, which is left behind;
   *  - otherwise every selected file was extracted, the output file (when it
   *    can be opened) holds a repack of the staging folder, and the staging
   *    folder is deleted. The timestamp map is never cleared.
   */
  predicate Minified(before: Snapshot, after: Snapshot, r: Outcome, rules: RuleSet, sel: seq<SourceFile>,
                     outFile: string, stagingOk: bool, outputOk: bool, unreadable: set<string>)
  {
    if CountMismatch(rules, sel) then r == MissingAssets && after == before
    else if !stagingOk then r == StagingFailed && after == before
    else
      match FirstUnopenable(sel)
      case Some(k) =>
        && r == ExtractFailed
        && after == Snapshot(Stamped(before.zipTimeMap, rules, Flatten(sel[..k])),
                             Staged(map[], rules, Flatten(sel[..k])), true, before.written)
      case None =>
        && r == Done(ExtractedCount(rules, Flatten(sel)))
        && after.zipTimeMap == Stamped(before.zipTimeMap, rules, Flatten(sel))
        && after.staging == map[] && !after.stagingExists
        && if outputOk then
             && outFile in after.written
             && after.written == before.written[outFile := after.written[outFile]]
             && IsRepackOf(after.written[outFile], Staged(map[], rules, Flatten(sel)), after.zipTimeMap, unreadable)
           else after.written == before.written
  }

  /** Every extracted path comes from an accepted file entry. */
  lemma {:induction false} ExtractedPathsOnly(rules: RuleSet, es: seq<Entry>, p: string)
    requires p in ExtractedPaths(rules, es)
    ensures exists k :: 0 <= k < |es| && Extracts(rules, es[k]) && StagingPath(es[k].name) == p
    decreases |es|
  {
    var init := es[..|es| - 1];
    if p in ExtractedPaths(rules, init) {
      ExtractedPathsOnly(rules, init, p);
      var k :| 0 <= k < |init| && Extracts(rules, init[k]) && StagingPath(init[k].name) == p;
      assert es[k] == init[k];
    } else {
      var k := |es| - 1;
      assert Extracts(rules, es[k]) && StagingPath(es[k].name) == p;
    }
  }

  /**
   * A completed run writes only accepted file entries of the selected
   * archives: every output entry is named by the staging path of one.
   */
  lemma MinifiedOnlyAccepted(before: Snapshot, after: Snapshot, r: Outcome, rules: RuleSet, sel: seq<SourceFile>,
                             outFile: string, stagingOk: bool, unreadable: set<string>, i: nat)
    requires Minified(before, after, r, rules, sel, outFile, stagingOk, true, unreadable)
    requires r.Done?
    requires outFile in after.written && i < |after.written[outFile]|
    ensures exists k :: 0 <= k < |Flatten(sel)| && Extracts(rules, Flatten(sel)[k])
                        && StagingPath(Flatten(sel)[k].name) == after.written[outFile][i].name
  {
    var es := Flatten(sel);
    var out := after.written[outFile];
    assert IsRepackOf(out, Staged(map[], rules, es), after.zipTimeMap, unreadable);
    StagedKeys(map[], rules, es);
    assert out[i].name in Staged(map[], rules, es);
    ExtractedPathsOnly(rules, es, out[i].name);
  }

  /**
   * A completed run carries the last accepted entry written to a path into
   * the output archive: its content, unless the staged copy cannot be read
   * back, and its time, when no later accepted entry with the same
   * case-insensitive name carries one.
   */
  lemma MinifiedLastWins(before: Snapshot, after: Snapshot, r: Outcome, rules: RuleSet, sel: seq<SourceFile>,
                         outFile: string, stagingOk: bool, unreadable: set<string>, k: nat)
    requires Minified(before, after, r, rules, sel, outFile, stagingOk, true, unreadable)
    requires r.Done?
    requires k < |Flatten(sel)| && Extracts(rules, Flatten(sel)[k])
    requires forall j :: k < j < |Flatten(sel)| && Extracts(rules, Flatten(sel)[j]) ==>
               StagingPath(Flatten(sel)[j].name) != StagingPath(Flatten(sel)[k].name)
    ensures outFile in after.written
    ensures StagingPath(Flatten(sel)[k].name) !in unreadable ==>
              exists i :: 0 <= i < |after.written[outFile]|
                          && after.written[outFile][i].name == StagingPath(Flatten(sel)[k].name)
                          && after.written[outFile][i].content == Flatten(sel)[k].content
    ensures Flatten(sel)[k].time.Some?
            && (forall j :: k < j < |Flatten(sel)| && Extracts(rules, Flatten(sel)[j]) && Flatten(sel)[j].time.Some? ==>
                  TimeKey(Flatten(sel)[j].name) != TimeKey(Flatten(sel)[k].name)) ==>
              exists i :: 0 <= i < |after.written[outFile]|
                          && after.written[outFile][i].name == StagingPath(Flatten(sel)[k].name)
                          && after.written[outFile][i].time == Flatten(sel)[k].time
  {
    var es := Flatten(sel);
    var out := after.written[outFile];
    assert after.zipTimeMap == Stamped(before.zipTimeMap, rules, es);
    assert IsRepackOf(out, Staged(map[], rules, es), after.zipTimeMap, unreadable);
    if StagingPath(es[k].name) !in unreadable {
      ContentRoundTrip(after.zipTimeMap, rules, es, k, out, unreadable);
    }
    if es[k].time.Some?
       && forall j :: k < j < |es| && Extracts(rules, es[j]) && es[j].time.Some? ==> TimeKey(es[j].name) != TimeKey(es[k].name)
    {
      TimeRoundTrip(before.zipTimeMap, rules, es, k, out, unreadable);
    }
  }

  /**
   * JKAServerAssetsMinifier: the listing of the input folder, the rules, and
   * the state minify changes: the timestamp map, the staging folder (and
   * whether it exists) and the archives written, by path.
   */
  class AssetsMinifier {
    const inputFiles: seq<SourceFile>
    const assetsRules: AssetsRules
    const md5Hex: Bytes -> string
    var zipTimeMap: map<string, int>
    var staging: map<string, Bytes>
    var stagingExists: bool
    var written: map<string, seq<OutEntry>>

    function State(): Snapshot
      reads this
    {
      Snapshot(zipTimeMap, staging, stagingExists, written)
    }

    constructor(inputFiles: seq<SourceFile>, assetsRules: AssetsRules, md5Hex: Bytes -> string)
      ensures this.inputFiles == inputFiles && this.assetsRules == assetsRules && this.md5Hex == md5Hex
      ensures State() == Snapshot(map[], map[], false, map[])
    {
      this.inputFiles := inputFiles;
      this.assetsRules := assetsRules;
      this.md5Hex := md5Hex;
      zipTimeMap := map[];
      staging := map[];
      stagingExists := false;
      written := map[];
    }

    /**
     * extractArchiveSelectivelyToDir: writes every accepted file entry to
     * staging, records its time when it has one, and counts it; an archive
     * that cannot be opened throws before any entry is read.
     */
    method ExtractArchive(f: SourceFile) returns (r: Option<nat>)
      modifies this
      ensures f.entries.None? ==> r.None? && State() == old(State())
      ensures f.entries.Some? ==>
                var es := f.entries.value;
                && r == Some(ExtractedCount(assetsRules.View(), es))
                && staging == Staged(old(staging), assetsRules.View(), es)
                && zipTimeMap == Stamped(old(zipTimeMap), assetsRules.View(), es)
      ensures stagingExists == old(stagingExists) && written == old(written)
    {
      if f.entries.None? {
        return None;
      }
      var es := f.entries.value;
      ghost var rules := assetsRules.View();
      ghost var m0 := staging;
      ghost var t0 := zipTimeMap;
      var extractedEntries := 0;
      var i := 0;
      while i < |es|
        invariant 0 <= i <= |es|
        invariant staging == Staged(m0, rules, es[..i])
        invariant zipTimeMap == Stamped(t0, rules, es[..i])
        invariant extractedEntries == ExtractedCount(rules, es[..i])
        invariant stagingExists == old(stagingExists) && written == old(written)
      {
        var entry := es[i];
        ExtractStep(m0, t0, rules, es, i);
        if assetsRules.Test(entry.name) && !entry.isDirectory {
          staging := staging[StagingPath(entry.name) := entry.content];
          if entry.time.Some? {
            zipTimeMap := zipTimeMap[TimeKey(entry.name) := entry.time.value];
          }
          extractedEntries := extractedEntries + 1;
        }
        i := i + 1;
      }
      assert es[..i] == es;
      return Some(extractedEntries);
    }

    /**
     * archiveDirectoryToFile: one entry per staged file, taken in an order
     * the file listing chooses, stamped from the timestamp map.
     */
    method ArchiveDirectory(unreadable: set<string>) returns (out: seq<OutEntry>)
      ensures IsRepackOf(out, staging, zipTimeMap, unreadable)
    {
      out := [];
      var remaining := staging.Keys;
      while remaining != {}
        invariant remaining <= staging.Keys
        invariant Names(out) == staging.Keys - remaining
        invariant PartialRepack(out, staging, zipTimeMap, unreadable)
        decreases |remaining|
      {
        var p :| p in remaining;
        var time := if Lower(p) in zipTimeMap then Some(zipTimeMap[Lower(p)]) else None;
        var content := if p in unreadable then [] else staging[p];
        var entry := OutEntry(p, time, content);
        RepackStep(out, p, staging, zipTimeMap, unreadable);
        out := out + [entry];
        assert staging.Keys - (remaining - {p}) == (staging.Keys - remaining) + {p};
        remaining := remaining - {p};
      }
    }

    /**
     * The extraction loop of minify: extracts the files in order and adds up
     * their counts, stopping at the first file that cannot be opened.
     */
    method ExtractAll(files: seq<SourceFile>) returns (r: Option<nat>)
      modifies this
      ensures match FirstUnopenable(files)
              case Some(k) =>
                && r.None?
                && staging == Staged(old(staging), assetsRules.View(), Flatten(files[..k]))
                && zipTimeMap == Stamped(old(zipTimeMap), assetsRules.View(), Flatten(files[..k]))
              case None =>
                && r == Some(ExtractedCount(assetsRules.View(), Flatten(files)))
                && staging == Staged(old(staging), assetsRules.View(), Flatten(files))
                && zipTimeMap == Stamped(old(zipTimeMap), assetsRules.View(), Flatten(files))
      ensures stagingExists == old(stagingExists) && written == old(written)
    {
      ghost var rules := assetsRules.View();
      var extractedFiles := 0;
      var i := 0;
      while i < |files|
        invariant 0 <= i <= |files|
        invariant forall j :: 0 <= j < i ==> files[j].entries.Some?
        invariant staging == Staged(old(staging), rules, Flatten(files[..i]))
        invariant zipTimeMap == Stamped(old(zipTimeMap), rules, Flatten(files[..i]))
        invariant extractedFiles == ExtractedCount(rules, Flatten(files[..i]))
        invariant stagingExists == old(stagingExists) && written == old(written)
      {
        var n := ExtractArchive(files[i]);
        if n.None? {
          return None;
        }
        FlattenExtend(files, i);
        ExtractConcat(old(staging), old(zipTimeMap), rules, Flatten(files[..i]), EntriesOf(files[i]));
        extractedFiles := extractedFiles + n.value;
        i := i + 1;
      }
      assert files[..i] == files;
      return Some(extractedFiles);
    }

    /**
     * minify: lists the input files through the rules, makes the count
     * check, then runs the pipeline against the output file the rules name.
     * stagingOk says whether creating and emptying the staging folder
     * succeeds, outputOk whether the output file can be opened for writing,
     * and unreadable which staged files cannot be read back.
     */
    method Minify(stagingOk: bool, outputOk: bool, unreadable: set<string>) returns (r: Outcome)
      requires assetsRules.Valid()
      modifies this
      ensures Minified(old(State()), State(), r, assetsRules.View(), Selected(assetsRules.View(), inputFiles, md5Hex),
                       assetsRules.GetOutFile(), stagingOk, outputOk, unreadable)
    {
      var numFilters := assetsRules.GetNumInputFileFilters();
      var outFile := assetsRules.GetOutFile();
      r := Run(numFilters, outFile, stagingOk, outputOk, unreadable);
    }

    /**
     * The body of minify once the rules' getters have been read: numFilters
     * is the number of input-file filters and outFile the output file.
     */
    method Run(numFilters: nat, outFile: string, stagingOk: bool, outputOk: bool, unreadable: set<string>)
      returns (r: Outcome)
      requires numFilters == |assetsRules.View().inputFilter|
      modifies this
      ensures Minified(old(State()), State(), r, assetsRules.View(), Selected(assetsRules.View(), inputFiles, md5Hex),
                       outFile, stagingOk, outputOk, unreadable)
    {
      var rules := assetsRules.View();
      var assetsFiles := Selected(rules, inputFiles, md5Hex);
      if numFilters != 0 && |assetsFiles| != numFilters {
        return MissingAssets;
      }
      if !stagingOk {
        return StagingFailed;
      }
      staging := map[];
      stagingExists := true;
      var extracted := ExtractAll(assetsFiles);
      if extracted.None? {
        return ExtractFailed;
      }
      if outputOk {
        var out := ArchiveDirectory(unreadable);
        written := written[outFile := out];
      }
      stagingExists := false;
      staging := map[];
      return Done(extracted.value);
    }
  }
}
