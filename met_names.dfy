/**
  The met-name table builder: every line `orig,instrument,name,units` of met_names.txt
  gives a rename entry from the logger's column name to a canonical name, and the
  instrument and units of that canonical name. The special pattern columns (the
  thermocouple string and the infrared targets) then get names derived from one base
  name with a suffix made from their second `_`-separated token.
 */
module MetNames {
  import opened Wrappers
  import opened Text
  import opened Upload

  /** The three dictionaries the script builds. */
  datatype Tables = Tables(rename: map<string, string>, instruments: map<string, string>, units: map<string, string>)

  const Empty: Tables := Tables(map[], map[], map[])

  /** The exceptions that stop the script. */
  datatype ScriptError =
    | ShortLine(line: nat)           // IndexError: line number `line` has fewer than four fields
    | NoSecondToken(column: string)  // IndexError: the column has no `_`
    | MissingKey(key: string)        // KeyError on one of the dictionaries

  // ---------------------------------------------------------------------------------
  // The names made from one line

  /** The canonical name: lower-cased, stripped, spaces and slashes made underscores. */
  function CanonicalName(field: string): string {
    ReplaceChar(ReplaceChar(Strip(Lower(field)), ' ', '_'), '/', '_')
  }

  /** The instrument: lower-cased and stripped. */
  function InstrumentName(field: string): string {
    Strip(Lower(field))
  }

  /** The units: lower-cased and stripped, with every parenthesis dropped. */
  function UnitsName(field: string): string {
    RemoveChar(RemoveChar(Strip(Lower(field)), '('), ')')
  }

  /** Replacing a character by an underscore keeps a stripped string stripped. */
  lemma ReplaceKeepsStripped(s: string, a: char)
    requires IsStripped(s, Whitespace)
    ensures IsStripped(ReplaceChar(s, a, '_'), Whitespace)
  {
    assert '_' !in Whitespace;
  }

  /** Lower-casing then stripping leaves no upper-case letter. */
  lemma StrippedLowerHasNoUpper(field: string)
    ensures HasNoUpper(Strip(Lower(field)))
  {
    StripInfix(Lower(field), Whitespace);
  }

  /** After both replacements no space or slash is left, and no upper-case letter appears. */
  lemma ReplacedClean(s: string)
    requires HasNoUpper(s)
    ensures var r := ReplaceChar(ReplaceChar(s, ' ', '_'), '/', '_');
      forall i :: 0 <= i < |r| ==> r[i] != ' ' && r[i] != '/' && !IsUpper(r[i])
  {
  }

  /** A canonical name has no space, no slash and no upper-case letter. */
  lemma CanonicalNameClean(field: string)
    ensures var r := CanonicalName(field);
      forall i :: 0 <= i < |r| ==> r[i] != ' ' && r[i] != '/' && !IsUpper(r[i])
  {
    StrippedLowerHasNoUpper(field);
    ReplacedClean(Strip(Lower(field)));
  }

  /** A canonical name does not start or end with whitespace. */
  lemma CanonicalNameStripped(field: string)
    ensures IsStripped(CanonicalName(field), Whitespace)
  {
    var s := Strip(Lower(field));
    ReplaceKeepsStripped(s, ' ');
    ReplaceKeepsStripped(ReplaceChar(s, ' ', '_'), '/');
  }

  /** A string that lower-casing, stripping and both replacements leave alone. */
  lemma CanonicalOfClean(r: string)
    requires forall i :: 0 <= i < |r| ==> r[i] != ' ' && r[i] != '/' && !IsUpper(r[i])
    requires IsStripped(r, Whitespace)
    ensures CanonicalName(r) == r
  {
    assert Lower(r) == r;
    StripFixed(r, Whitespace);
    assert ReplaceChar(r, ' ', '_') == r;
    assert ReplaceChar(r, '/', '_') == r;
  }

  /** Canonicalising a canonical name changes nothing. */
  lemma CanonicalNameFixed(field: string)
    ensures CanonicalName(CanonicalName(field)) == CanonicalName(field)
  {
    CanonicalNameClean(field);
    CanonicalNameStripped(field);
    CanonicalOfClean(CanonicalName(field));
  }

  /** Units have no parenthesis and no upper-case letter. */
  lemma UnitsNameClean(field: string)
    ensures var r := UnitsName(field);
      '(' !in r && ')' !in r && HasNoUpper(r)
  {
    var l := Lower(field);
    var s := Strip(l);
    StripChars(l, Whitespace);
    var r := UnitsName(field);
    forall i | 0 <= i < |r| ensures !IsUpper(r[i]) {
      assert r[i] in r;
      assert r[i] in s;
      var j :| 0 <= j < |l| && l[j] == r[i];
    }
  }

  // ---------------------------------------------------------------------------------
  // The first loop: one line at a time

  /** What one line gives: its original name and the canonical name, instrument and units. */
  datatype Entry = Entry(original: string, name: string, instrument: string, units: string)

  /** The entry of a line's fields, or None when it has fewer than four fields. */
  function LineEntry(fields: seq<string>): Option<Entry> {
    if |fields| < 4 then None
    else Some(Entry(fields[0], CanonicalName(fields[2]), InstrumentName(fields[1]), UnitsName(fields[3])))
  }

  /** What one entry adds to the tables. */
  function AddEntry(t: Tables, e: Entry): Tables {
    Tables(t.rename[e.original := e.name], t.instruments[e.name := e.instrument], t.units[e.name := e.units])
  }

  /**
    The tables after the lines, each given by its entry, or the IndexError of the first
    line with fewer than four fields.
   */
  function Build(entries: seq<Option<Entry>>): Result<Tables, ScriptError>
    decreases |entries|
  {
    if entries == [] then Success(Empty)
    else
      var t :- Build(entries[..|entries| - 1]);
      match entries[|entries| - 1]
      case None => Failure(ShortLine(|entries| - 1))
      case Some(e) => Success(AddEntry(t, e))
  }

  /** The entry of every line. */
  function Entries(lines: seq<string>): (r: seq<Option<Entry>>)
    ensures |r| == |lines|
  {
    seq(|lines|, k requires 0 <= k < |lines| => LineEntry(Split(lines[k], ",")))
  }

  /** The tables the first loop of the script builds from the lines of met_names.txt. */
  function Parsed(lines: seq<string>): Result<Tables, ScriptError> {
    Build(Entries(lines))
  }

  /** Once the lines read so far have failed, the rest changes nothing. */
  lemma {:induction false} BuildStops(entries: seq<Option<Entry>>, n: nat)
    requires n <= |entries| && Build(entries[..n]).Failure?
    ensures Build(entries) == Build(entries[..n])
    decreases |entries|
  {
    if n < |entries| {
      var init := entries[..|entries| - 1];
      assert init[..n] == entries[..n];
      BuildStops(init, n);
    } else {
      assert entries[..n] == entries;
    }
  }

  /** Line k is the first line with fewer than four fields. */
  ghost predicate FirstShort(entries: seq<Option<Entry>>, k: int) {
    0 <= k < |entries| && entries[k].None? && forall j :: 0 <= j < k ==> entries[j].Some?
  }

  /** The script stops at the first line with fewer than four fields, and only then. */
  lemma {:induction false} BuildFails(entries: seq<Option<Entry>>)
    ensures Build(entries).Success? <==> forall k :: 0 <= k < |entries| ==> entries[k].Some?
    ensures forall k :: FirstShort(entries, k) ==> Build(entries) == Failure(ShortLine(k))
    decreases |entries|
  {
    if entries != [] {
      var init := entries[..|entries| - 1];
      BuildFails(init);
      assert forall k :: 0 <= k < |init| ==> init[k] == entries[k];
      forall k | FirstShort(entries, k) ensures Build(entries) == Failure(ShortLine(k)) {
        if k < |init| {
          assert FirstShort(init, k);
        }
      }
    }
  }

  /** Line k is the last line whose original name is o. */
  ghost predicate LastWithOriginal(entries: seq<Option<Entry>>, k: int, o: string) {
    && 0 <= k < |entries| && entries[k].Some? && entries[k].value.original == o
    && forall j :: k < j < |entries| && entries[j].Some? ==> entries[j].value.original != o
  }

  /** Line k is the last line whose canonical name is name. */
  ghost predicate LastWithName(entries: seq<Option<Entry>>, k: int, name: string) {
    && 0 <= k < |entries| && entries[k].Some? && entries[k].value.name == name
    && forall j :: k < j < |entries| && entries[j].Some? ==> entries[j].value.name != name
  }

  /**
    rename has an entry for the original name of every line and nothing else, and it is
    the canonical name of the last line with that original name: a later line overwrites.
   */
  lemma {:induction false} BuildRename(entries: seq<Option<Entry>>)
    requires Build(entries).Success?
    ensures forall o :: o in Build(entries).value.rename <==>
      exists k :: 0 <= k < |entries| && entries[k].Some? && entries[k].value.original == o
    ensures forall o, k :: LastWithOriginal(entries, k, o) ==> Build(entries).value.rename[o] == entries[k].value.name
    decreases |entries|
  {
    if entries != [] {
      var init := entries[..|entries| - 1];
      var last := |entries| - 1;
      BuildFails(entries);
      BuildFails(init);
      BuildRename(init);
      var e := entries[last].value;
      var r := Build(entries).value.rename;
      assert r == Build(init).value.rename[e.original := e.name];
      forall o ensures o in r <==> exists k :: 0 <= k < |entries| && entries[k].Some? && entries[k].value.original == o {
        if o in r && o != e.original {
          var k :| 0 <= k < |init| && init[k].Some? && init[k].value.original == o;
          assert entries[k] == init[k];
        }
        if exists k :: 0 <= k < |entries| && entries[k].Some? && entries[k].value.original == o {
          var k :| 0 <= k < |entries| && entries[k].Some? && entries[k].value.original == o;
          if k < last {
            assert init[k] == entries[k];
          }
        }
      }
      forall o, k | LastWithOriginal(entries, k, o) ensures r[o] == entries[k].value.name {
        if k < last {
          assert LastWithOriginal(init, k, o) by {
            forall j | k < j < |init| && init[j].Some? ensures init[j].value.original != o {
              assert init[j] == entries[j];
            }
          }
          assert init[k] == entries[k];
        }
      }
    }
  }

  /**
    instruments and units have an entry for the canonical name of every line and nothing
    else, taken from the last line with that canonical name.
   */
  lemma {:induction false} BuildTables(entries: seq<Option<Entry>>)
    requires Build(entries).Success?
    ensures forall name :: name in Build(entries).value.instruments <==>
      exists k :: 0 <= k < |entries| && entries[k].Some? && entries[k].value.name == name
    ensures Build(entries).value.units.Keys == Build(entries).value.instruments.Keys
    ensures forall name, k :: LastWithName(entries, k, name) ==>
      && Build(entries).value.instruments[name] == entries[k].value.instrument
      && Build(entries).value.units[name] == entries[k].value.units
    decreases |entries|
  {
    if entries != [] {
      var init := entries[..|entries| - 1];
      var last := |entries| - 1;
      BuildFails(entries);
      BuildFails(init);
      BuildTables(init);
      var e := entries[last].value;
      var t := Build(entries).value;
      assert t == AddEntry(Build(init).value, e);
      forall name ensures name in t.instruments <==> exists k :: 0 <= k < |entries| && entries[k].Some? && entries[k].value.name == name {
        if name in t.instruments && name != e.name {
          var k :| 0 <= k < |init| && init[k].Some? && init[k].value.name == name;
          assert entries[k] == init[k];
        }
        if exists k :: 0 <= k < |entries| && entries[k].Some? && entries[k].value.name == name {
          var k :| 0 <= k < |entries| && entries[k].Some? && entries[k].value.name == name;
          if k < last {
            assert init[k] == entries[k];
          }
        }
      }
      forall name, k | LastWithName(entries, k, name)
        ensures t.instruments[name] == entries[k].value.instrument && t.units[name] == entries[k].value.units
      {
        if k < last {
          assert LastWithName(init, k, name) by {
            forall j | k < j < |init| && init[j].Some? ensures init[j].value.name != name {
              assert init[j] == entries[j];
            }
          }
          assert init[k] == entries[k];
        }
      }
    }
  }

  /** One more line: its entry is added, or the script stops there. */
  lemma BuildStep(entries: seq<Option<Entry>>, i: nat, t: Tables)
    requires i < |entries| && Build(entries[..i]) == Success(t)
    ensures Build(entries[..i + 1]) ==
      match entries[i]
      case None => Failure(ShortLine(i))
      case Some(e) => Success(AddEntry(t, e))
  {
    assert entries[..i + 1][..i] == entries[..i];
  }

  /** The first loop of the script, over the lines of met_names.txt. */
  method ParseLines(lines: seq<string>) returns (r: Result<Tables, ScriptError>)
    ensures r == Parsed(lines)
  {
    ghost var entries := Entries(lines);
    var rename, instruments, units := map[], map[], map[];
    for i := 0 to |lines|
      invariant Build(entries[..i]) == Success(Tables(rename, instruments, units))
    {
      var data := Split(lines[i], ",");
      BuildStep(entries, i, Tables(rename, instruments, units));
      assert entries[i] == LineEntry(data);
      if |data| < 4 {
        BuildStops(entries, i + 1);
        return Failure(ShortLine(i));
      }
      var name := CanonicalName(data[2]);
      var originalName := data[0];
      rename := rename[originalName := name];
      instruments := instruments[name := InstrumentName(data[1])];
      units := units[name := UnitsName(data[3])];
    }
    assert entries[..|lines|] == entries;
    r := Success(Tables(rename, instruments, units));
  }

  // ---------------------------------------------------------------------------------
  // The special pattern columns

  /** The lines of the special_cols text, each column with the tab or space after it. */
  const SpecialColsLines: seq<string> := [
    "IRtarget_nadir1_C_Avg\t" + "IRtarget_nadir2_C_Avg",
    "IRtarget_30degN_C_Avg\t" + "IRtarget_30degS_C_Avg",
    "TCstringC_s50cm_Avg\t" + "TCstringC_s40cm_Avg\t" + "TCstringC_s30cm_Avg",
    "TCstringC_s20cm_Avg\t" + "TCstringC_s10cm_Avg\t" + "TCstringC_s5cm_Avg",
    "TCstringC_s2cm_Avg\t" + "TCstringC_0cm_Avg\t" + "TCstringC_2cm_Avg",
    "TCstringC_5cm_Avg\t" + "TCstringC_10cm_Avg\t" + "TCstringC_20cm_Avg",
    "TCstringC_30cm_Avg\t" + "TCstringC_40cm_Avg\t" + "TCstringC_50cm_Avg",
    "TCstringC_75cm_Avg\t" + "TCstringC_100cm_Avg\t" + "TCstringC_125cm_Avg",
    "TCstringC_150cm_Avg " + "TCstringC_175cm_Avg\t" + "TCstringC_200cm_Avg",
    "TCstringC_225cm_Avg\t" + "TCstringC_250cm_Avg\t" + "TCstringC_275cm_Avg",
    "TCstringC_300cm_Avg"
  ]

  /** The special_cols text: its lines joined by newlines. */
  const SpecialColsText: string := Join(SpecialColsLines, "\n")

  /** The text with every tab and newline made a space. */
  function Spaced(text: string): string {
    ReplaceChar(ReplaceChar(text, '\t', ' '), '\n', ' ')
  }

  /** Every string of the list, stripped: each one is stripped and is no longer than its piece. */
  function StripAll(pieces: seq<string>): (r: seq<string>)
    ensures |r| == |pieces|
    ensures forall k :: 0 <= k < |r| ==> IsStripped(r[k], Whitespace) && |r[k]| <= |pieces[k]|
  {
    seq(|pieces|, k requires 0 <= k < |pieces| => Strip(pieces[k]))
  }

  /** The non-empty strings of the list, in their order. */
  function NonEmpty(strs: seq<string>): (r: seq<string>)
    ensures forall s :: s in r <==> s in strs && s != ""
    ensures IsSubsequence(r, strs)
    decreases |strs|
  {
    if strs == [] then []
    else
      var rest := NonEmpty(strs[1..]);
      if strs[0] != "" then
        assert ([strs[0]] + rest)[1..] == rest;
        [strs[0]] + rest
      else rest
  }

  /** The columns of a special_cols text: split on whitespace, stripped, empty ones dropped. */
  function Tokens(text: string): seq<string> {
    NonEmpty(StripAll(Split(Spaced(text), " ")))
  }

  /** The special pattern columns the script names. */
  const SpecialCols: seq<string> := Tokens(SpecialColsText)

  /** A piece of the spaced text split on spaces has no space, tab or newline, and only characters of the text. */
  lemma PieceChars(text: string, piece: string)
    requires piece in Split(Spaced(text), " ")
    ensures forall x :: x in piece ==> x != ' ' && x != '\t' && x != '\n' && x in text
  {
    var sp := Spaced(text);
    SplitPiecesClean(sp, " ");
    SplitPiecesChars(sp, " ");
    ContainsChar(piece, ' ');
    forall x | x in piece ensures x != '\t' && x != '\n' && x in text {
      assert x in sp;
      var i :| 0 <= i < |sp| && sp[i] == x;
      assert x != ' ';
      assert text[i] == x;
    }
  }

  /**
    Every column of a special_cols text is non-empty, stripped, free of spaces, tabs and
    newlines, and made of characters of the text.
   */
  lemma TokensClean(text: string)
    ensures forall tok :: tok in Tokens(text) ==>
      && tok != "" && IsStripped(tok, Whitespace)
      && (forall x :: x in tok ==> x != ' ' && x != '\t' && x != '\n' && x in text)
  {
    var pieces := Split(Spaced(text), " ");
    var stripped := StripAll(pieces);
    forall tok | tok in Tokens(text)
      ensures && tok != "" && IsStripped(tok, Whitespace)
              && (forall x :: x in tok ==> x != ' ' && x != '\t' && x != '\n' && x in text)
    {
      var k :| 0 <= k < |stripped| && stripped[k] == tok;
      PieceChars(text, pieces[k]);
      StripChars(pieces[k], Whitespace);
    }
  }

  /** The line has neither a dash nor an upper-case X. */
  predicate Lacks(line: string) {
    '-' !in line && 'X' !in line
  }

  /** Lines 0 and 1 of the special_cols text have neither a dash nor an X. */
  lemma SpecialColsLinesLack0()
    ensures forall i :: 0 <= i < 2 ==> Lacks(SpecialColsLines[i])
  {
    assert Lacks(SpecialColsLines[0]);
    assert Lacks(SpecialColsLines[1]);
  }

  /** Lines 2 and 3 of the special_cols text have neither a dash nor an X. */
  lemma SpecialColsLinesLack2()
    ensures forall i :: 2 <= i < 4 ==> Lacks(SpecialColsLines[i])
  {
    assert Lacks(SpecialColsLines[2]);
    assert Lacks(SpecialColsLines[3]);
  }

  /** Lines 4 and 5 of the special_cols text have neither a dash nor an X. */
  lemma SpecialColsLinesLack4()
    ensures forall i :: 4 <= i < 6 ==> Lacks(SpecialColsLines[i])
  {
    assert Lacks(SpecialColsLines[4]);
    assert Lacks(SpecialColsLines[5]);
  }

  /** Lines 6 and 7 of the special_cols text have neither a dash nor an X. */
  lemma SpecialColsLinesLack6()
    ensures forall i :: 6 <= i < 8 ==> Lacks(SpecialColsLines[i])
  {
    assert Lacks(SpecialColsLines[6]);
    assert Lacks(SpecialColsLines[7]);
  }

  /** Lines 8 and 9 of the special_cols text have neither a dash nor an X. */
  lemma SpecialColsLinesLack8()
    ensures forall i :: 8 <= i < 10 ==> Lacks(SpecialColsLines[i])
  {
    assert Lacks(SpecialColsLines[8]);
    assert Lacks(SpecialColsLines[9]);
  }

  /** Line 10 of the special_cols text has neither a dash nor an X. */
  lemma SpecialColsLinesLack10()
    ensures forall i :: 10 <= i < 11 ==> Lacks(SpecialColsLines[i])
  {
    assert Lacks(SpecialColsLines[10]);
  }

  /** Neither a dash nor an upper-case X is in the special_cols text. */
  lemma SpecialColsTextLacks(x: char)
    requires x == '-' || x == 'X'
    ensures x !in SpecialColsText
  {
    SpecialColsLinesLack0();
    SpecialColsLinesLack2();
    SpecialColsLinesLack4();
    SpecialColsLinesLack6();
    SpecialColsLinesLack8();
    SpecialColsLinesLack10();
    if x in SpecialColsText {
      JoinChars(SpecialColsLines, "\n", x);
    }
  }

  /** No special pattern column has a dash or an X in it. */
  lemma SpecialColsLack()
    ensures forall c, x :: c in SpecialCols && x in c ==> x != '-' && x != 'X'
  {
    TokensClean(SpecialColsText);
    SpecialColsTextLacks('-');
    SpecialColsTextLacks('X');
  }

  /** The special names the loop tries, in order. */
  const Specials: seq<string> := ["IRtarget_XXX", "IRsensor_XXX", "TCstringC-XX", "TCstringC-sXX"]

  /** The infrared target locations that are spelt out. */
  const Extras: map<string, string> := map["30degN" := "30_degrees_north", "30degS" := "30_degrees_south"]

  /** c.split('_')[1], or the IndexError when c has no underscore. */
  function SecondToken(c: string): Result<string, ScriptError> {
    var parts := Split(c, "_");
    if |parts| < 2 then Failure(NoSecondToken(c)) else Success(parts[1])
  }

  /** The suffix of a column's name, None when the column matches no pattern. */
  function Suffix(c: string): Result<Option<string>, ScriptError> {
    if Contains(c, "TCstringC-s") then
      var dist :- SecondToken(c);
      Success(Some("_" + dist + "_below_soil"))
    else if Contains(c, "TCstringC") then
      var dist :- SecondToken(c);
      Success(Some("_" + dist + "_above_soil"))
    else if Contains(c, "IRtarget") then
      var location :- SecondToken(c);
      Success(Some("_" + (if location in Extras then Extras[location] else location)))
    else Success(None)
  }

  /** The column gets a suffix. */
  predicate Named(c: string) {
    Suffix(c).Success? && Suffix(c).value.Some?
  }

  /**
    A column gets no suffix exactly when it holds neither TCstringC nor IRtarget; the
    suffix fails, with the IndexError, exactly when it holds one of them but no underscore;
    a suffix starts with an underscore.
   */
  lemma SuffixCases(c: string)
    ensures Suffix(c) == Success(None) <==> !Contains(c, "TCstringC") && !Contains(c, "IRtarget")
    ensures Suffix(c).Failure? <==> (Contains(c, "TCstringC") || Contains(c, "IRtarget")) && '_' !in c
    ensures Suffix(c).Failure? ==> Suffix(c).error == NoSecondToken(c)
    ensures Named(c) ==> |Suffix(c).value.value| > 0 && Suffix(c).value.value[0] == '_'
  {
    if Contains(c, "TCstringC-s") {
      ContainsPrefix(c, "TCstringC-s", "TCstringC");
    }
    SplitHasSecond(c, "_");
    ContainsChar(c, '_');
  }

  /**
    A column holding TCstringC and a second token gets `_<second token>_below_soil` when it
    holds TCstringC-s and `_<second token>_above_soil` otherwise.
   */
  lemma SuffixThermocouple(c: string)
    requires Contains(c, "TCstringC") && |Split(c, "_")| >= 2
    ensures Suffix(c) == Success(Some("_" + Split(c, "_")[1]
      + (if Contains(c, "TCstringC-s") then "_below_soil" else "_above_soil")))
  {
  }

  /**
    A column holding IRtarget, a second token and no TCstringC gets `_<location>`, where the
    second token 30degN reads 30_degrees_north, 30degS reads 30_degrees_south and any other
    is kept.
   */
  lemma SuffixTarget(c: string)
    requires Contains(c, "IRtarget") && !Contains(c, "TCstringC") && |Split(c, "_")| >= 2
    ensures var location := Split(c, "_")[1];
      && (location == "30degN" ==> Suffix(c) == Success(Some("_" + "30_degrees_north")))
      && (location == "30degS" ==> Suffix(c) == Success(Some("_" + "30_degrees_south")))
      && (location != "30degN" && location != "30degS" ==> Suffix(c) == Success(Some("_" + location)))
  {
    if Contains(c, "TCstringC-s") {
      ContainsPrefix(c, "TCstringC-s", "TCstringC");
    }
    var location := Split(c, "_")[1];
    assert SecondToken(c) == Success(location);
    assert Extras.Keys == {"30degN", "30degS"};
  }

  /**
    No special pattern column holds TCstringC-s: they are all written with an underscore
    after TCstringC, so every thermocouple takes the above_soil suffix.
   */
  lemma SpecialColsAboveSoil()
    ensures forall c :: c in SpecialCols ==> !Contains(c, "TCstringC-s")
  {
    SpecialColsLack();
    assert '-' in "TCstringC-s";
    forall c | c in SpecialCols ensures !Contains(c, "TCstringC-s") {
      LacksChar(c, "TCstringC-s", '-');
    }
  }

  /** The base name special IRtarget_XXX is not itself a special pattern column. */
  lemma BaseNotSpecial()
    ensures Specials[0] !in SpecialCols
  {
    SpecialColsLack();
    assert 'X' in Specials[0];
  }

  // ---------------------------------------------------------------------------------
  // The second loop: naming the special pattern columns

  /**
    What one special column does to the tables: nothing when it matches no pattern;
    otherwise, since the suffix does not depend on the special tried, the first special
    IRtarget_XXX gives the base name, the column is renamed to the base name with the
    suffix, and that name inherits the base name's instrument and units. Each lookup that
    finds no key is the KeyError.
   */
  function PatternStep(t: Tables, c: string): Result<Tables, ScriptError> {
    var add :- Suffix(c);
    match add
    case None => Success(t)
    case Some(a) =>
      var s := Specials[0];
      if s !in t.rename then Failure(MissingKey(s))
      else
        var base := t.rename[s];
        var name := base + a;
        if base !in t.instruments || base !in t.units then Failure(MissingKey(base))
        else Success(Tables(t.rename[c := name], t.instruments[name := t.instruments[base]], t.units[name := t.units[base]]))
  }

  /** The tables after the special columns, one after the other. */
  function Patterns(t: Tables, cols: seq<string>): Result<Tables, ScriptError>
    decreases |cols|
  {
    if cols == [] then Success(t)
    else
      var u :- Patterns(t, cols[..|cols| - 1]);
      PatternStep(u, cols[|cols| - 1])
  }

  /** Once the columns named so far have failed, the rest changes nothing. */
  lemma {:induction false} PatternsStop(t: Tables, cols: seq<string>, n: nat)
    requires n <= |cols| && Patterns(t, cols[..n]).Failure?
    ensures Patterns(t, cols) == Patterns(t, cols[..n])
    decreases |cols|
  {
    if n < |cols| {
      var init := cols[..|cols| - 1];
      assert init[..n] == cols[..n];
      PatternsStop(t, init, n);
    } else {
      assert cols[..n] == cols;
    }
  }

  /** One more column: the step applied to the tables so far. */
  lemma PatternsNext(t: Tables, cols: seq<string>, i: nat, u: Tables)
    requires i < |cols| && Patterns(t, cols[..i]) == Success(u)
    ensures Patterns(t, cols[..i + 1]) == PatternStep(u, cols[i])
  {
    assert cols[..i + 1][..i] == cols[..i];
  }

  /**
    The second loop of the script: for every special column, try the specials in order;
    the first that gives a suffix (always the first special, or none) names the column.
   */
  method AddPatternNames(t: Tables, cols: seq<string>) returns (r: Result<Tables, ScriptError>)
    ensures r == Patterns(t, cols)
  {
    var rename, instruments, units := t.rename, t.instruments, t.units;
    for ci := 0 to |cols|
      invariant Patterns(t, cols[..ci]) == Success(Tables(rename, instruments, units))
    {
      var c := cols[ci];
      ghost var before := Tables(rename, instruments, units);
      PatternsNext(t, cols, ci, before);
      var si := 0;
      while si < |Specials|
        invariant 0 <= si <= |Specials|
        invariant si > 0 ==> Suffix(c) == Success(None)
        invariant Tables(rename, instruments, units) == before
      {
        var s := Specials[si];
        var suffix := Suffix(c);
        if suffix.Failure? {
          PatternsStop(t, cols, ci + 1);
          return Failure(suffix.error);
        }
        var add := suffix.value;
        if add.Some? {
          if s !in rename {
            PatternsStop(t, cols, ci + 1);
            return Failure(MissingKey(s));
          }
          var origName := rename[s];
          var name := origName + add.value;
          rename := rename[c := name];
          if origName !in instruments {
            PatternsStop(t, cols, ci + 1);
            return Failure(MissingKey(origName));
          }
          instruments := instruments[name := instruments[origName]];
          if origName !in units {
            PatternsStop(t, cols, ci + 1);
            return Failure(MissingKey(origName));
          }
          units := units[name := units[origName]];
          assert Patterns(t, cols[..ci + 1]) == Success(Tables(rename, instruments, units));
          break;
        }
        si := si + 1;
      }
      assert Patterns(t, cols[..ci + 1]) == Success(Tables(rename, instruments, units));
    }
    assert cols[..|cols|] == cols;
    r := Success(Tables(rename, instruments, units));
  }

  /** The base name IRtarget_XXX is renamed to, with an instrument and units of its own. */
  ghost predicate HasBase(t: Tables) {
    Specials[0] in t.rename && t.rename[Specials[0]] in t.instruments && t.rename[Specials[0]] in t.units
  }

  /** The suffix of a column that gets one. */
  function AddedSuffix(c: string): string
    requires Named(c)
  {
    Suffix(c).value.value
  }

  /** The suffix of every special column that gets one. */
  function Naming(cols: seq<string>): map<string, string> {
    map c | c in cols && Named(c) :: AddedSuffix(c)
  }

  /** Every suffix in a naming is non-empty. */
  lemma NamingNonEmpty(cols: seq<string>)
    ensures forall c :: c in Naming(cols) ==> |Naming(cols)[c]| > 0
  {
    forall c | c in Naming(cols) ensures |Naming(cols)[c]| > 0 {
      SuffixCases(c);
    }
  }

  /** One more column adds its suffix to the naming, if it gets one. */
  lemma NamingStep(cols: seq<string>, c: string)
    ensures Naming(cols + [c]) == if Named(c) then Naming(cols)[c := AddedSuffix(c)] else Naming(cols)
  {
    assert forall x :: x in cols + [c] <==> x in cols || x == c;
  }

  /** The names the columns of a naming get: the base name with each suffix. */
  function NamesOf(base: string, naming: map<string, string>): set<string> {
    set c | c in naming :: base + naming[c]
  }

  /** The rename entries with every named column renamed to the base name with its suffix. */
  function Renamed(rename: map<string, string>, base: string, naming: map<string, string>): map<string, string> {
    rename + map c | c in naming :: base + naming[c]
  }

  /** The entries with every name of names given the base name's entry. */
  function Inherit(m: map<string, string>, base: string, names: set<string>): map<string, string>
    requires base in m
  {
    m + map n | n in names :: m[base]
  }

  /**
    What naming the special columns comes to, without a loop: every column with a suffix
    is renamed to the base name with its suffix, every such name has the base name's
    instrument and units, and every other entry stays as it was.
   */
  function Derived(t: Tables, naming: map<string, string>): Tables
    requires HasBase(t)
  {
    var base := t.rename[Specials[0]];
    var names := NamesOf(base, naming);
    Tables(Renamed(t.rename, base, naming), Inherit(t.instruments, base, names), Inherit(t.units, base, names))
  }

  /** With non-empty suffixes, no derived name is the base name. */
  lemma BaseNotDerived(base: string, naming: map<string, string>)
    requires forall x :: x in naming ==> |naming[x]| > 0
    ensures base !in NamesOf(base, naming)
  {
    forall x | x in naming ensures base + naming[x] != base {
      assert |base + naming[x]| == |base| + |naming[x]|;
    }
  }

  /** Naming one more column adds its name. */
  lemma NamesOfAdd(base: string, naming: map<string, string>, c: string, a: string)
    requires c in naming ==> naming[c] == a
    ensures NamesOf(base, naming[c := a]) == NamesOf(base, naming) + {base + a}
  {
    var n := naming[c := a];
    forall x | x in NamesOf(base, n) ensures x in NamesOf(base, naming) + {base + a} {
      var y :| y in n && x == base + n[y];
      if y != c {
        assert y in naming && x == base + naming[y];
      }
    }
    forall x | x in NamesOf(base, naming) + {base + a} ensures x in NamesOf(base, n) {
      if x == base + a {
        assert c in n && x == base + n[c];
      } else {
        var y :| y in naming && x == base + naming[y];
        assert y in n && x == base + n[y];
      }
    }
  }

  /** Naming one more column renames it. */
  lemma RenamedAdd(rename: map<string, string>, base: string, naming: map<string, string>, c: string, a: string)
    ensures Renamed(rename, base, naming[c := a]) == Renamed(rename, base, naming)[c := base + a]
  {
  }

  /** One more inheriting name gets the base name's entry, if it is not the base name. */
  lemma InheritAdd(m: map<string, string>, base: string, names: set<string>, n: string)
    requires base in m && base !in names && n != base
    ensures Inherit(m, base, names)[base] == m[base]
    ensures Inherit(m, base, names + {n}) == Inherit(m, base, names)[n := m[base]]
  {
  }

  /** The reference keeps the base name, and one more named column takes the loop's step. */
  lemma DerivedStep(t: Tables, naming: map<string, string>, c: string, a: string)
    requires HasBase(t) && Specials[0] !in naming && Specials[0] != c
    requires |a| > 0 && forall x :: x in naming ==> |naming[x]| > 0
    requires c in naming ==> naming[c] == a
    ensures HasBase(Derived(t, naming))
    ensures Derived(t, naming).rename[Specials[0]] == t.rename[Specials[0]]
    ensures var d, base := Derived(t, naming), t.rename[Specials[0]];
      Derived(t, naming[c := a]) == Tables(d.rename[c := base + a], d.instruments[base + a := d.instruments[base]],
                                           d.units[base + a := d.units[base]])
  {
    var base := t.rename[Specials[0]];
    var names := NamesOf(base, naming);
    BaseNotDerived(base, naming);
    NamesOfAdd(base, naming, c, a);
    RenamedAdd(t.rename, base, naming, c, a);
    assert base + a != base by {
      assert |base + a| > |base|;
    }
    InheritAdd(t.instruments, base, names, base + a);
    InheritAdd(t.units, base, names, base + a);
  }

  /** The step of the loop on the reference, for a column that is not IRtarget_XXX. */
  lemma PatternStepDerived(t: Tables, cols: seq<string>, c: string)
    requires HasBase(t) && Specials[0] !in cols && Specials[0] != c
    ensures HasBase(Derived(t, Naming(cols)))
    ensures PatternStep(Derived(t, Naming(cols)), c) ==
      match Suffix(c)
      case Failure(e) => Failure(e)
      case Success(add) => Success(Derived(t, Naming(cols + [c])))
  {
    NamingNonEmpty(cols);
    NamingStep(cols, c);
    var naming := Naming(cols);
    if Named(c) {
      SuffixCases(c);
      DerivedStep(t, naming, c, AddedSuffix(c));
    } else {
      DerivedStep(t, naming, c, "_");
    }
  }

  /** Patterns over one more column: the step applied to the tables so far. */
  lemma PatternsLast(t: Tables, init: seq<string>, c: string)
    ensures Patterns(t, init + [c]) == (if Patterns(t, init).Success? then PatternStep(Patterns(t, init).value, c) else Patterns(t, init))
  {
    assert (init + [c])[..|init|] == init;
  }

  /**
    Given the base name, and no special column that is IRtarget_XXX itself, the loop
    gives the reference whenever it succeeds.
   */
  lemma {:induction false} PatternsReference(t: Tables, cols: seq<string>)
    requires HasBase(t) && Specials[0] !in cols
    ensures Patterns(t, cols).Success? ==> Patterns(t, cols).value == Derived(t, Naming(cols))
    decreases |cols|
  {
    if cols == [] {
      assert Derived(t, Naming(cols)) == t;
    } else {
      var init, c := cols[..|cols| - 1], cols[|cols| - 1];
      assert cols == init + [c];
      PatternsReference(t, init);
      PatternsLast(t, init, c);
      if Patterns(t, init).Success? {
        PatternStepDerived(t, init, c);
      }
    }
  }

  /** Columns that match no pattern change nothing. */
  lemma {:induction false} PatternsUnnamed(t: Tables, cols: seq<string>)
    requires forall c :: c in cols ==> Suffix(c) == Success(None)
    ensures Patterns(t, cols) == Success(t)
    decreases |cols|
  {
    if cols != [] {
      PatternsUnnamed(t, cols[..|cols| - 1]);
    }
  }

  /**
    Without the base name the loop fails at the first column that gets a suffix; so,
    whatever the tables, it succeeds exactly when every suffix succeeds and, if some column
    gets one, the base name is there.
   */
  lemma {:induction false} PatternsSucceed(t: Tables, cols: seq<string>)
    requires Specials[0] !in cols
    ensures Patterns(t, cols).Success? <==>
      (forall c :: c in cols ==> Suffix(c).Success?) && ((exists c :: c in cols && Named(c)) ==> HasBase(t))
    decreases |cols|
  {
    if cols != [] {
      var init, c := cols[..|cols| - 1], cols[|cols| - 1];
      assert cols == init + [c];
      PatternsSucceed(t, init);
      PatternsLast(t, init, c);
      assert forall x :: x in cols <==> x in init || x == c;
      if Patterns(t, init).Success? {
        if HasBase(t) {
          PatternsReference(t, init);
          PatternStepDerived(t, init, c);
        } else {
          assert forall x :: x in init ==> Suffix(x) == Success(None);
          PatternsUnnamed(t, init);
          if Named(c) {
            assert !PatternStep(t, c).Success?;
          } else if Suffix(c).Success? {
            assert PatternStep(t, c) == Success(t);
            assert forall x :: x in cols ==> Suffix(x).Success? && !Named(x);
          }
        }
      }
    }
  }

  /**
    In the reference every column with a suffix is renamed to the base name plus that
    suffix; every other rename entry is kept, and no other is added.
   */
  lemma DerivedRenames(t: Tables, naming: map<string, string>)
    requires HasBase(t)
    ensures var r, base := Derived(t, naming), t.rename[Specials[0]];
      && (forall c :: c in naming ==> r.rename[c] == base + naming[c])
      && (forall o :: o in t.rename && o !in naming ==> r.rename[o] == t.rename[o])
      && r.rename.Keys == t.rename.Keys + naming.Keys
  {
  }

  /** In the reference every derived name has the base name's instrument and units. */
  lemma DerivedInherits(t: Tables, naming: map<string, string>)
    requires HasBase(t)
    ensures var r, base := Derived(t, naming), t.rename[Specials[0]];
      forall c :: c in naming ==>
        && r.instruments[base + naming[c]] == t.instruments[base]
        && r.units[base + naming[c]] == t.units[base]
  {
  }

  /** In the reference every other name keeps its instrument and units, and only derived names are added. */
  lemma DerivedKeeps(t: Tables, naming: map<string, string>)
    requires HasBase(t)
    ensures var r, names := Derived(t, naming), NamesOf(t.rename[Specials[0]], naming);
      && (forall n :: n in t.instruments && n !in names ==> r.instruments[n] == t.instruments[n])
      && (forall n :: n in t.units && n !in names ==> r.units[n] == t.units[n])
      && r.instruments.Keys == t.instruments.Keys + names
      && r.units.Keys == t.units.Keys + names
  {
  }

  // ---------------------------------------------------------------------------------
  // The whole script

  /** The three tables the script prints, or the exception that stops it. */
  function MetTables(lines: seq<string>): Result<Tables, ScriptError> {
    var t :- Parsed(lines);
    Patterns(t, SpecialCols)
  }

  /** The script: the line loop, then the pattern loop over the special columns. */
  method RunScript(lines: seq<string>) returns (r: Result<Tables, ScriptError>)
    ensures r == MetTables(lines)
  {
    r := ParseLines(lines);
    if r.Success? {
      r := AddPatternNames(r.value, SpecialCols);
    }
  }

  /**
    When the script succeeds and the lines name IRtarget_XXX, its tables are the reference:
    the special columns named after IRtarget_XXX's name with their suffixes, each taking
    its instrument and units.
   */
  lemma MetTablesDerived(lines: seq<string>)
    requires MetTables(lines).Success? && HasBase(Parsed(lines).value)
    ensures MetTables(lines).value == Derived(Parsed(lines).value, Naming(SpecialCols))
  {
    BaseNotSpecial();
    PatternsReference(Parsed(lines).value, SpecialCols);
  }
}
