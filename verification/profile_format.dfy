/**
 * The text format of a TrayRunner2049 profile: one `Key=Value` pair per line. Loading
 * skips blank lines and lines without '=', splits the others at their first '=', trims
 * both halves, rejects a key that occurs twice, rejects a file without any pair, and then
 * assigns the known fields, whose names are matched without regard to case. Saving writes
 * six lines in a fixed order.
 *
 * File access and the `.image` side file are outside the model: a profile file is its
 * text, and `Encoding.GetEncoding` is a parameter that maps a name to the encoding's web
 * name, or fails.
 */
module ProfileFormat {
  import opened Wrappers
  import opened TextLines

  /** A profile. A `None` string is a .NET `null`; the encoding is kept as its web name. */
  datatype Profile = Profile(
    name: Option<string>,
    fileName: Option<string>,
    arguments: Option<string>,
    workingDirectory: Option<string>,
    autoRestart: bool,
    encoding: string)

  /** The web name of `Encoding.UTF8`, the encoding of a new profile. */
  const DefaultEncoding: string := "utf-8"

  /** A new profile: no strings set, no automatic restart, UTF-8. */
  function NewProfile(): Profile {
    Profile(None, None, None, None, false, DefaultEncoding)
  }

  /** One `key=value` pair read from a line, both halves trimmed. */
  datatype Entry = Entry(key: string, value: string)

  /** Why loading fails. */
  datatype LoadError =
    | DuplicateKey(key: string)      // `Dictionary.Add` with a key already present
    | NoProfileData                  // not a single `key=value` line
    | UnknownEncoding(name: string)  // `Encoding.GetEncoding` rejects the name

  /** Why saving fails. */
  datatype SaveError = EmptyName

  /** `Encoding.GetEncoding(name).WebName`, or `None` where `GetEncoding` throws. */
  type EncodingLookup = string -> Option<string>

  /** The first position at or after `i` where `s` holds `c`, or `|s|` when there is none. */
  function Find(s: string, c: char, i: nat): (k: nat)
    requires i <= |s|
    ensures i <= k <= |s|
    decreases |s| - i
  {
    if i == |s| || s[i] == c then i else Find(s, c, i + 1)
  }

  /** `Find` stops at the first `c`, and `|s|` means `c` does not occur from `i` on. */
  lemma {:induction false} FindSpec(s: string, c: char, i: nat)
    requires i <= |s|
    ensures var k := Find(s, c, i);
      && (k < |s| ==> s[k] == c)
      && forall j :: i <= j < k ==> s[j] != c
    decreases |s| - i
  {
    if i < |s| && s[i] != c {
      FindSpec(s, c, i + 1);
    }
  }

  /**
   * One line of a profile file: `None` for a line that is blank, white space only, or
   * has no '='; otherwise the text before the first '=' and the text after it, trimmed.
   */
  function ParseLine(line: string): Option<Entry> {
    var k := Find(line, '=', 0);
    if AllWhiteSpace(line) || k == |line| then None
    else Some(Entry(Trim(line[..k]), Trim(line[k + 1..])))
  }

  /** A line is skipped exactly when it is white space only or holds no '='. */
  lemma ParseLineSkips(line: string)
    ensures ParseLine(line).None? <==> AllWhiteSpace(line) || '=' !in line
  {
    FindSpec(line, '=', 0);
  }

  /**
   * A line splits at its first '=': the key is everything before it and the value,
   * which may hold further '=' characters, everything after it.
   */
  lemma ParseLineSplits(key: string, value: string)
    requires '=' !in key
    ensures ParseLine(key + "=" + value) == Some(Entry(Trim(key), Trim(value)))
  {
    var line := key + "=" + value;
    assert line[|key|] == '=';
    assert forall j :: 0 <= j < |key| ==> line[j] == key[j];
    FindExact(line, '=', 0, |key|);
    assert !IsWhiteSpace(line[|key|]);
    assert line[..|key|] == key;
    assert line[|key| + 1..] == value;
  }

  /** A `c` with none before it from `i` on is what `Find` finds. */
  lemma {:induction false} FindExact(s: string, c: char, i: nat, k: nat)
    requires i <= k < |s| && s[k] == c
    requires forall j :: i <= j < k ==> s[j] != c
    ensures Find(s, c, i) == k
    decreases k - i
  {
    if i < k {
      FindExact(s, c, i + 1, k);
    }
  }

  /** The pairs of the lines from index `i` on, in order, skipped lines left out. */
  function ParsedFrom(lines: seq<string>, i: nat): seq<Entry>
    requires i <= |lines|
    decreases |lines| - i
  {
    if i == |lines| then []
    else
      var rest := ParsedFrom(lines, i + 1);
      match ParseLine(lines[i])
      case None => rest
      case Some(e) => [e] + rest
  }

  /** The pairs of all lines. */
  function Parsed(lines: seq<string>): seq<Entry> {
    ParsedFrom(lines, 0)
  }

  /** Some pair of `dict` has key `key`. */
  predicate HasKey(dict: seq<Entry>, key: string) {
    exists i :: 0 <= i < |dict| && dict[i].key == key
  }

  /** No two pairs of `es` share a key (keys compare exactly, as strings). */
  predicate DistinctKeys(es: seq<Entry>) {
    forall i, j :: 0 <= i < j < |es| ==> es[i].key != es[j].key
  }

  /**
   * The loop that fills the dictionary: `dict` holds the pairs of the lines before `i`,
   * in the order they were added. Adding a key already present throws.
   */
  function AddLines(lines: seq<string>, i: nat, dict: seq<Entry>): Result<seq<Entry>, LoadError>
    requires i <= |lines|
    decreases |lines| - i
  {
    if i == |lines| then Success(dict)
    else
      match ParseLine(lines[i])
      case None => AddLines(lines, i + 1, dict)
      case Some(e) =>
        if HasKey(dict, e.key) then Failure(DuplicateKey(e.key))
        else AddLines(lines, i + 1, dict + [e])
  }

  /** Two different pairs of `es` have key `key`. */
  predicate KeyRepeats(es: seq<Entry>, key: string) {
    exists a, b :: 0 <= a < b < |es| && es[a].key == key && es[b].key == key
  }

  /** When filling the dictionary fails, two of the pairs share the key the error names. */
  lemma {:induction false} AddLinesNamesRepeat(lines: seq<string>, i: nat, dict: seq<Entry>)
    requires i <= |lines|
    ensures var r := AddLines(lines, i, dict);
      r.Failure? ==> r.error.DuplicateKey? && KeyRepeats(dict + ParsedFrom(lines, i), r.error.key)
    decreases |lines| - i
  {
    if i < |lines| {
      var rest := ParsedFrom(lines, i + 1);
      match ParseLine(lines[i])
      case None =>
        assert ParsedFrom(lines, i) == rest;
        AddLinesNamesRepeat(lines, i + 1, dict);
      case Some(e) =>
        var all := (dict + [e]) + rest;
        assert dict + ParsedFrom(lines, i) == all;
        if HasKey(dict, e.key) {
          var k :| 0 <= k < |dict| && dict[k].key == e.key;
          assert all[k].key == e.key && all[|dict|].key == e.key;
          assert KeyRepeats(all, e.key);
        } else {
          AddLinesNamesRepeat(lines, i + 1, dict + [e]);
        }
    }
  }

  /** Adding a pair whose key is new keeps the keys distinct. */
  lemma DistinctKeysAdd(dict: seq<Entry>, e: Entry)
    requires DistinctKeys(dict) && !HasKey(dict, e.key)
    ensures DistinctKeys(dict + [e])
  {
    forall i, j | 0 <= i < j < |dict + [e]| ensures (dict + [e])[i].key != (dict + [e])[j].key {
      if j == |dict| {
        assert (dict + [e])[i] == dict[i];
      }
    }
  }

  /** Filling the dictionary succeeds exactly when no key repeats, and then yields every pair. */
  lemma {:induction false} AddLinesOutcome(lines: seq<string>, i: nat, dict: seq<Entry>)
    requires i <= |lines| && DistinctKeys(dict)
    ensures var r := AddLines(lines, i, dict);
      && (r.Success? <==> DistinctKeys(dict + ParsedFrom(lines, i)))
      && (r.Success? ==> r.value == dict + ParsedFrom(lines, i))
      && (r.Failure? ==> r.error.DuplicateKey?)
    decreases |lines| - i
  {
    if i < |lines| {
      var rest := ParsedFrom(lines, i + 1);
      match ParseLine(lines[i])
      case None =>
        assert ParsedFrom(lines, i) == rest;
        AddLinesOutcome(lines, i + 1, dict);
      case Some(e) =>
        var all := (dict + [e]) + rest;
        assert dict + ParsedFrom(lines, i) == all;
        if HasKey(dict, e.key) {
          var k :| 0 <= k < |dict| && dict[k].key == e.key;
          assert all[k].key == e.key && all[|dict|].key == e.key;
          assert !DistinctKeys(all);
        } else {
          DistinctKeysAdd(dict, e);
          AddLinesOutcome(lines, i + 1, dict + [e]);
        }
    } else {
      assert dict + [] == dict;
    }
  }

  /**
   * Filling the dictionary succeeds exactly when no key repeats, and then yields every
   * pair in line order; when it fails, the key it names occurs twice.
   */
  lemma AddLinesSpec(lines: seq<string>, i: nat, dict: seq<Entry>)
    requires i <= |lines| && DistinctKeys(dict)
    ensures var r := AddLines(lines, i, dict);
      && (r.Success? <==> DistinctKeys(dict + ParsedFrom(lines, i)))
      && (r.Success? ==> r.value == dict + ParsedFrom(lines, i))
      && (r.Failure? ==> r.error.DuplicateKey?)
      && (r.Failure? ==> KeyRepeats(dict + ParsedFrom(lines, i), r.error.key))
  {
    AddLinesOutcome(lines, i, dict);
    AddLinesNamesRepeat(lines, i, dict);
  }

  /** `Char.ToLowerInvariant` on the characters whose lower case is an ASCII letter. */
  function LowerChar(c: char): char {
    if 'A' <= c <= 'Z' then (c as int + 32) as char
    else if c as int == 0x212A then 'k'  // KELVIN SIGN
    else c
  }

  /** `String.ToLowerInvariant`, character by character. */
  function Lower(s: string): (r: string)
    ensures |r| == |s|
  {
    seq(|s|, i requires 0 <= i < |s| => LowerChar(s[i]))
  }

  /** The profile field a key selects, or `OtherField` for a key the loader ignores. */
  datatype Field =
    | NameField | FileNameField | ArgumentsField | WorkingDirectoryField
    | AutoRestartField | EncodingField | OtherField

  /** The `switch` on the lower-cased key: which field a key names. */
  function FieldOf(key: string): Field {
    var k := Lower(key);
    if k == "name" then NameField
    else if k == "filename" then FileNameField
    else if k == "arguments" then ArgumentsField
    else if k == "workingdirectory" then WorkingDirectoryField
    else if k == "autorestart" then AutoRestartField
    else if k == "encoding" then EncodingField
    else OtherField
  }

  /** Applies one pair to the profile, as one pass of the `switch` does. */
  function Assign(p: Profile, e: Entry, lookup: EncodingLookup): Result<Profile, LoadError> {
    match FieldOf(e.key)
    case NameField => Success(p.(name := Some(e.value)))
    case FileNameField => Success(p.(fileName := Some(e.value)))
    case ArgumentsField => Success(p.(arguments := Some(e.value)))
    case WorkingDirectoryField => Success(p.(workingDirectory := Some(e.value)))
    case AutoRestartField => Success(p.(autoRestart := e.value == "true"))
    case EncodingField =>
      (match lookup(e.value)
       case None => Failure(UnknownEncoding(e.value))
       case Some(web) => Success(p.(encoding := web)))
    case OtherField => Success(p)
  }

  /** Applies the pairs in dictionary order (the order they were added); the first failure stops it. */
  function AssignAll(p: Profile, es: seq<Entry>, lookup: EncodingLookup): Result<Profile, LoadError>
    decreases |es|
  {
    if es == [] then Success(p)
    else
      match AssignAll(p, es[..|es| - 1], lookup)
      case Failure(err) => Failure(err)
      case Success(q) => Assign(q, es[|es| - 1], lookup)
  }

  /** `Profile.FromFile` on the text of the file. */
  function Load(text: string, lookup: EncodingLookup): Result<Profile, LoadError> {
    match AddLines(ReadLines(text), 0, [])
    case Failure(err) => Failure(err)
    case Success(dict) =>
      if dict == [] then Failure(NoProfileData) else AssignAll(NewProfile(), dict, lookup)
  }

  /**
   * The value of the last pair whose key names `field` regardless of case, if any: the
   * value the field ends up with.
   */
  function LastValue(es: seq<Entry>, field: Field): Option<string>
    decreases |es|
  {
    if es == [] then None
    else if FieldOf(es[|es| - 1].key) == field then Some(es[|es| - 1].value)
    else LastValue(es[..|es| - 1], field)
  }

  /** `v` if present, else `d`. */
  function Or(v: Option<string>, d: Option<string>): Option<string> {
    if v.Some? then v else d
  }

  /** Every pair that names the encoding names one `lookup` knows. */
  predicate EncodingsKnown(es: seq<Entry>, lookup: EncodingLookup) {
    forall i :: 0 <= i < |es| && FieldOf(es[i].key) == EncodingField ==> lookup(es[i].value).Some?
  }

  /** The name of `r` is the value of the last pair naming it, or that of `p` if none does. */
  predicate NameReflects(r: Profile, p: Profile, es: seq<Entry>) {
    r.name == Or(LastValue(es, NameField), p.name)
  }

  /** The file name of `r` is the value of the last pair naming it, or that of `p` if none does. */
  predicate FileNameReflects(r: Profile, p: Profile, es: seq<Entry>) {
    r.fileName == Or(LastValue(es, FileNameField), p.fileName)
  }

  /** The arguments of `r` are the value of the last pair naming them, or those of `p` if none does. */
  predicate ArgumentsReflect(r: Profile, p: Profile, es: seq<Entry>) {
    r.arguments == Or(LastValue(es, ArgumentsField), p.arguments)
  }

  /** The working directory of `r` is the value of the last pair naming it, or that of `p` if none does. */
  predicate WorkingDirectoryReflects(r: Profile, p: Profile, es: seq<Entry>) {
    r.workingDirectory == Or(LastValue(es, WorkingDirectoryField), p.workingDirectory)
  }

  /**
   * `r` restarts automatically exactly when the last pair naming the flag has the value
   * "true", compared with case; with no such pair it keeps the flag of `p`.
   */
  predicate AutoRestartReflects(r: Profile, p: Profile, es: seq<Entry>) {
    r.autoRestart == (if LastValue(es, AutoRestartField).Some?
                      then LastValue(es, AutoRestartField).value == "true"
                      else p.autoRestart)
  }

  /** The encoding of `r` is what the last pair naming it resolves to, or that of `p` if none does. */
  predicate EncodingReflects(r: Profile, p: Profile, es: seq<Entry>, lookup: EncodingLookup) {
    if LastValue(es, EncodingField).Some?
    then lookup(LastValue(es, EncodingField).value) == Some(r.encoding)
    else r.encoding == p.encoding
  }

  /** `r` is `p` with the pairs `es` applied, field by field. */
  predicate Reflects(r: Profile, p: Profile, es: seq<Entry>, lookup: EncodingLookup) {
    && NameReflects(r, p, es)
    && FileNameReflects(r, p, es)
    && ArgumentsReflect(r, p, es)
    && WorkingDirectoryReflects(r, p, es)
    && AutoRestartReflects(r, p, es)
    && EncodingReflects(r, p, es, lookup)
  }

  /** Applying one more pair keeps the name in step with the pairs applied. */
  lemma AssignName(q: Profile, p: Profile, es: seq<Entry>, lookup: EncodingLookup)
    requires es != [] && NameReflects(q, p, es[..|es| - 1])
    requires Assign(q, es[|es| - 1], lookup).Success?
    ensures NameReflects(Assign(q, es[|es| - 1], lookup).value, p, es)
  {
  }

  /** Applying one more pair keeps the file name in step with the pairs applied. */
  lemma AssignFileName(q: Profile, p: Profile, es: seq<Entry>, lookup: EncodingLookup)
    requires es != [] && FileNameReflects(q, p, es[..|es| - 1])
    requires Assign(q, es[|es| - 1], lookup).Success?
    ensures FileNameReflects(Assign(q, es[|es| - 1], lookup).value, p, es)
  {
  }

  /** Applying one more pair keeps the arguments in step with the pairs applied. */
  lemma AssignArguments(q: Profile, p: Profile, es: seq<Entry>, lookup: EncodingLookup)
    requires es != [] && ArgumentsReflect(q, p, es[..|es| - 1])
    requires Assign(q, es[|es| - 1], lookup).Success?
    ensures ArgumentsReflect(Assign(q, es[|es| - 1], lookup).value, p, es)
  {
  }

  /** Applying one more pair keeps the working directory in step with the pairs applied. */
  lemma AssignWorkingDirectory(q: Profile, p: Profile, es: seq<Entry>, lookup: EncodingLookup)
    requires es != [] && WorkingDirectoryReflects(q, p, es[..|es| - 1])
    requires Assign(q, es[|es| - 1], lookup).Success?
    ensures WorkingDirectoryReflects(Assign(q, es[|es| - 1], lookup).value, p, es)
  {
  }

  /** Applying one more pair keeps the restart flag in step with the pairs applied. */
  lemma AssignAutoRestart(q: Profile, p: Profile, es: seq<Entry>, lookup: EncodingLookup)
    requires es != [] && AutoRestartReflects(q, p, es[..|es| - 1])
    requires Assign(q, es[|es| - 1], lookup).Success?
    ensures AutoRestartReflects(Assign(q, es[|es| - 1], lookup).value, p, es)
  {
  }

  /** Applying one more pair keeps the encoding in step with the pairs applied. */
  lemma AssignEncoding(q: Profile, p: Profile, es: seq<Entry>, lookup: EncodingLookup)
    requires es != [] && EncodingReflects(q, p, es[..|es| - 1], lookup)
    requires Assign(q, es[|es| - 1], lookup).Success?
    ensures EncodingReflects(Assign(q, es[|es| - 1], lookup).value, p, es, lookup)
  {
  }

  /** Applying one more pair keeps the profile in step with the pairs applied so far. */
  lemma AssignReflects(q: Profile, p: Profile, es: seq<Entry>, lookup: EncodingLookup)
    requires es != [] && Reflects(q, p, es[..|es| - 1], lookup)
    requires Assign(q, es[|es| - 1], lookup).Success?
    ensures Reflects(Assign(q, es[|es| - 1], lookup).value, p, es, lookup)
  {
    AssignName(q, p, es, lookup);
    AssignFileName(q, p, es, lookup);
    AssignArguments(q, p, es, lookup);
    AssignWorkingDirectory(q, p, es, lookup);
    AssignAutoRestart(q, p, es, lookup);
    AssignEncoding(q, p, es, lookup);
  }

  /**
   * What applying the pairs yields: it fails exactly when some encoding name is unknown,
   * and otherwise gives the profile the pairs describe. Pairs naming no field change
   * nothing.
   */
  lemma {:induction false} AssignAllSpec(p: Profile, es: seq<Entry>, lookup: EncodingLookup)
    ensures var r := AssignAll(p, es, lookup);
      && (r.Success? <==> EncodingsKnown(es, lookup))
      && (r.Failure? ==> r.error.UnknownEncoding?)
      && (r.Success? ==> Reflects(r.value, p, es, lookup))
    decreases |es|
  {
    if es != [] {
      var init := es[..|es| - 1];
      var e := es[|es| - 1];
      AssignAllSpec(p, init, lookup);
      assert forall i :: 0 <= i < |init| ==> init[i] == es[i];
      if EncodingsKnown(init, lookup) && !EncodingsKnown(es, lookup) {
        var i :| 0 <= i < |es| && FieldOf(es[i].key) == EncodingField && lookup(es[i].value).None?;
        assert i == |es| - 1;
      }
      if !EncodingsKnown(init, lookup) {
        var i :| 0 <= i < |init| && FieldOf(init[i].key) == EncodingField && lookup(init[i].value).None?;
        assert es[i] == init[i];
      }
      var r := AssignAll(p, init, lookup);
      if r.Success? && Assign(r.value, e, lookup).Success? {
        AssignReflects(r.value, p, es, lookup);
      }
    }
  }

  /**
   * What loading a file yields, read off its pairs: a repeated key fails, a file without
   * pairs fails, and otherwise the pairs are applied to a new profile.
   */
  lemma LoadSpec(text: string, lookup: EncodingLookup)
    ensures var es := Parsed(ReadLines(text)); var r := Load(text, lookup);
      && (!DistinctKeys(es) ==> r.Failure? && r.error.DuplicateKey?)
      && (DistinctKeys(es) && es == [] ==> r == Failure(NoProfileData))
      && (DistinctKeys(es) && es != [] ==> r == AssignAll(NewProfile(), es, lookup))
  {
    AddLinesOutcome(ReadLines(text), 0, []);
    assert [] + Parsed(ReadLines(text)) == Parsed(ReadLines(text));
  }

  /** The text `$"{s}"` gives for a string that may be null. */
  function Text(s: Option<string>): string {
    s.GetOr("")
  }

  /** `Boolean.ToString().ToLowerInvariant()`. */
  function BoolText(b: bool): string {
    if b then "true" else "false"
  }

  /** The pairs a saved profile holds, in the order `SaveToFile` writes them. */
  function SavedPairs(p: Profile): seq<Entry>
    requires p.name.Some?
  {
    [Entry("Name", p.name.value),
     Entry("FileName", Text(p.fileName)),
     Entry("Arguments", Text(p.arguments)),
     Entry("WorkingDirectory", Text(p.workingDirectory)),
     Entry("AutoRestart", BoolText(p.autoRestart)),
     Entry("Encoding", p.encoding)]
  }

  /** The line `WriteLine($"{key}={value}")` writes for each pair. */
  function LinesOf(es: seq<Entry>): (lines: seq<string>)
    ensures |lines| == |es|
  {
    seq(|es|, i requires 0 <= i < |es| => es[i].key + "=" + es[i].value)
  }

  /**
   * The lines `SaveToFile` writes: it refuses a null or white-space name, and otherwise
   * writes one line per field.
   */
  function SaveLines(p: Profile): Result<seq<string>, SaveError> {
    if IsNullOrWhiteSpace(p.name) then Failure(EmptyName)
    else Success(LinesOf(SavedPairs(p)))
  }

  /** The text of the file `SaveToFile` writes. */
  function Save(p: Profile): Result<string, SaveError> {
    match SaveLines(p)
    case Failure(err) => Failure(err)
    case Success(lines) => Success(WriteLines(lines))
  }

  /** Saving fails, and then for the name, exactly when the name is null or white space. */
  lemma SaveRefusesBlankName(p: Profile)
    ensures Save(p).Failure? <==> IsNullOrWhiteSpace(p.name)
    ensures Save(p).Failure? ==> Save(p).error == EmptyName
  {
  }

  /** A string value survives a save and a load: it holds no line break and is already trimmed. */
  predicate Storable(s: string) {
    SingleLine(s) && Trimmed(s)
  }

  /** A string field that is null or storable. */
  predicate StorableField(s: Option<string>) {
    s.None? || Storable(s.value)
  }

  /** What loading a saved profile gives back: null strings come back empty. */
  function Reloaded(p: Profile): Profile {
    Profile(p.name, Some(Text(p.fileName)), Some(Text(p.arguments)),
            Some(Text(p.workingDirectory)), p.autoRestart, p.encoding)
  }

  /** The keys of the first three lines `SaveToFile` writes name their fields. */
  lemma FirstKeysSelect()
    ensures FieldOf("Name") == NameField
    ensures FieldOf("FileName") == FileNameField
    ensures FieldOf("Arguments") == ArgumentsField
  {
    assert Lower("Name") == "name";
    assert Lower("FileName") == "filename";
    assert Lower("Arguments") == "arguments";
  }

  /** The keys of the last three lines `SaveToFile` writes name their fields. */
  lemma LastKeysSelect()
    ensures FieldOf("WorkingDirectory") == WorkingDirectoryField
    ensures FieldOf("AutoRestart") == AutoRestartField
    ensures FieldOf("Encoding") == EncodingField
  {
    assert Lower("WorkingDirectory") == "workingdirectory";
    assert Lower("AutoRestart") == "autorestart";
    assert Lower("Encoding") == "encoding";
  }

  /** A key, '=' and a value, none of which holds a line break, form one line. */
  lemma PairLine(key: string, value: string)
    requires SingleLine(key) && SingleLine(value)
    ensures SingleLine(key + "=" + value)
  {
    var line := key + "=" + value;
    forall i | 0 <= i < |line| ensures !IsLineBreak(line[i]) {
      if i < |key| {
        assert line[i] == key[i];
      } else if i > |key| {
        assert line[i] == value[i - |key| - 1];
      }
    }
  }

  /** A saved line reads back as the pair it was written from. */
  lemma PairRoundTrip(key: string, value: string)
    requires '=' !in key && Trimmed(key) && Trimmed(value)
    ensures ParseLine(key + "=" + value) == Some(Entry(key, value))
  {
    ParseLineSplits(key, value);
    TrimIdentity(key);
    TrimIdentity(value);
  }

  /** A key `SaveToFile` can write: one line, no '=', no surrounding white space. */
  predicate KeyOk(key: string) {
    SingleLine(key) && '=' !in key && Trimmed(key)
  }

  /** The keys of the first three lines `SaveToFile` writes are fit to be read back. */
  lemma FirstKeysOk()
    ensures KeyOk("Name") && KeyOk("FileName") && KeyOk("Arguments")
  {
  }

  /** The keys of the last three lines `SaveToFile` writes are fit to be read back. */
  lemma LastKeysOk()
    ensures KeyOk("WorkingDirectory") && KeyOk("AutoRestart") && KeyOk("Encoding")
  {
  }

  /** A line written for a key and a storable value is one line holding that pair. */
  lemma SavedLine(key: string, value: string)
    requires KeyOk(key) && Storable(value)
    ensures SingleLine(key + "=" + value)
    ensures ParseLine(key + "=" + value) == Some(Entry(key, value))
  {
    PairLine(key, value);
    PairRoundTrip(key, value);
  }

  /** Lines that each hold one pair hold those pairs, in order. */
  lemma {:induction false} ParsedEach(lines: seq<string>, es: seq<Entry>, i: nat)
    requires i <= |lines| == |es|
    requires forall j :: i <= j < |lines| ==> ParseLine(lines[j]) == Some(es[j])
    ensures ParsedFrom(lines, i) == es[i..]
    decreases |lines| - i
  {
    if i < |lines| {
      ParsedEach(lines, es, i + 1);
      assert es[i..] == [es[i]] + es[i + 1..];
    }
  }

  /** The value `LastValue` reports is that of the last pair naming the field. */
  lemma {:induction false} LastValueAt(es: seq<Entry>, field: Field, k: nat)
    requires k < |es| && FieldOf(es[k].key) == field
    requires forall j :: k < j < |es| ==> FieldOf(es[j].key) != field
    ensures LastValue(es, field) == Some(es[k].value)
    decreases |es|
  {
    if k < |es| - 1 {
      var init := es[..|es| - 1];
      assert init[k] == es[k];
      assert forall j :: k < j < |init| ==> init[j] == es[j];
      LastValueAt(init, field, k);
    }
  }

  /** Every pair has a key and a value fit to be read back. */
  predicate StorablePairs(es: seq<Entry>) {
    forall i :: 0 <= i < |es| ==> KeyOk(es[i].key) && Storable(es[i].value)
  }

  /** The pairs of a profile fit to be saved are fit to be read back. */
  lemma SavedPairsStorable(p: Profile)
    requires p.name.Some?
    requires StorableField(p.name) && StorableField(p.fileName)
    requires StorableField(p.arguments) && StorableField(p.workingDirectory)
    requires Storable(p.encoding)
    ensures StorablePairs(SavedPairs(p))
  {
    FirstKeysOk();
    LastKeysOk();
  }

  /** Written pair lines read back as the same lines, holding the same pairs. */
  lemma PairLinesRead(es: seq<Entry>)
    requires StorablePairs(es)
    ensures ReadLines(WriteLines(LinesOf(es))) == LinesOf(es)
    ensures Parsed(LinesOf(es)) == es
  {
    var lines := LinesOf(es);
    forall i | 0 <= i < |es| ensures SingleLine(lines[i]) && ParseLine(lines[i]) == Some(es[i]) {
      SavedLine(es[i].key, es[i].value);
    }
    ReadWriteLines(lines);
    ParsedEach(lines, es, 0);
    assert es[0..] == es;
  }

  /** The keys of a saved profile are distinct. */
  lemma SavedKeysDistinct(p: Profile)
    requires p.name.Some?
    ensures DistinctKeys(SavedPairs(p))
  {
  }

  /** In the pairs of a saved profile, the name, file name and arguments each come from their own line. */
  lemma SavedFirstValues(p: Profile)
    requires p.name.Some?
    ensures LastValue(SavedPairs(p), NameField) == p.name
    ensures LastValue(SavedPairs(p), FileNameField) == Some(Text(p.fileName))
    ensures LastValue(SavedPairs(p), ArgumentsField) == Some(Text(p.arguments))
  {
    FirstKeysSelect();
    LastKeysSelect();
    var es := SavedPairs(p);
    LastValueAt(es, NameField, 0);
    LastValueAt(es, FileNameField, 1);
    LastValueAt(es, ArgumentsField, 2);
  }

  /** In the pairs of a saved profile, the last three fields each come from their own line. */
  lemma SavedLastValues(p: Profile)
    requires p.name.Some?
    ensures LastValue(SavedPairs(p), WorkingDirectoryField) == Some(Text(p.workingDirectory))
    ensures LastValue(SavedPairs(p), AutoRestartField) == Some(BoolText(p.autoRestart))
    ensures LastValue(SavedPairs(p), EncodingField) == Some(p.encoding)
  {
    FirstKeysSelect();
    LastKeysSelect();
    var es := SavedPairs(p);
    LastValueAt(es, WorkingDirectoryField, 3);
    LastValueAt(es, AutoRestartField, 4);
    LastValueAt(es, EncodingField, 5);
  }

  /** The only encoding a saved profile names is its own. */
  lemma SavedEncodingKnown(p: Profile, lookup: EncodingLookup)
    requires p.name.Some? && lookup(p.encoding) == Some(p.encoding)
    ensures EncodingsKnown(SavedPairs(p), lookup)
  {
    FirstKeysSelect();
    LastKeysSelect();
  }

  /** Applying the pairs of a saved profile to a new profile rebuilds it. */
  lemma SavedPairsApply(p: Profile, lookup: EncodingLookup)
    requires p.name.Some? && lookup(p.encoding) == Some(p.encoding)
    ensures AssignAll(NewProfile(), SavedPairs(p), lookup) == Success(Reloaded(p))
  {
    SavedFirstValues(p);
    SavedLastValues(p);
    SavedEncodingKnown(p, lookup);
    AssignAllSpec(NewProfile(), SavedPairs(p), lookup);
  }

  /**
   * Saving and loading a profile gives it back, provided its name is not blank, its
   * strings hold no line breaks and no surrounding white space, and its encoding's web
   * name resolves to itself. A null string comes back empty.
   */
  lemma SaveLoadRoundTrip(p: Profile, lookup: EncodingLookup)
    requires !IsNullOrWhiteSpace(p.name)
    requires StorableField(p.name) && StorableField(p.fileName)
    requires StorableField(p.arguments) && StorableField(p.workingDirectory)
    requires Storable(p.encoding) && lookup(p.encoding) == Some(p.encoding)
    ensures Save(p).Success?
    ensures Load(Save(p).value, lookup) == Success(Reloaded(p))
  {
    var es := SavedPairs(p);
    SavedPairsStorable(p);
    PairLinesRead(es);
    SavedKeysDistinct(p);
    AddLinesSpec(LinesOf(es), 0, []);
    assert [] + es == es;
    SavedPairsApply(p, lookup);
  }

  /** The field name is matched without regard to case but the flag's value is not: "True" turns it off. */
  lemma AutoRestartValueIsCaseSensitive(p: Profile, lookup: EncodingLookup)
    ensures Assign(p, Entry("AUTORESTART", "True"), lookup) == Success(p.(autoRestart := false))
    ensures Assign(p, Entry("autoRestart", "true"), lookup) == Success(p.(autoRestart := true))
  {
    assert Lower("AUTORESTART") == "autorestart";
    assert Lower("autoRestart") == "autorestart";
  }

  /**
   * Keys that differ only in case are different dictionary keys, so both are accepted,
   * and the one added last decides the field.
   */
  lemma CaseVariantKeys(lookup: EncodingLookup)
    ensures DistinctKeys([Entry("Name", "a"), Entry("name", "b")])
    ensures AssignAll(NewProfile(), [Entry("Name", "a"), Entry("name", "b")], lookup)
            == Success(NewProfile().(name := Some("b")))
  {
    var es := [Entry("Name", "a"), Entry("name", "b")];
    assert Lower("Name") == "name";
    assert Lower("name") == "name";
    assert es[..1] == [Entry("Name", "a")];
    assert es[..1][..0] == [];
  }
}
