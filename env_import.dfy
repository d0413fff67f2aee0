/**
 * `import_os_variables`: turning the `KEY=VALUE` lines that `env` prints,
 * after the board-identity file has been sourced, into the map of the
 * board variables whose names contain a pattern.
 */
module EnvImport {
  import opened Text

  /** The board-identity file jtop reads at start-up. */
  const SOURCE_FILE: string := "/etc/jetson_easy/jetson_variables"
  /** The default `PATTERN` argument. */
  const DEFAULT_PATTERN: string := "JETSON_"
  const SEPARATOR: char := '='

  datatype Entry = Entry(key: string, value: string)

  /** The outcome of reading the lines: a value, or the index of the first
      line without a separator (where `tup[1]` raises `IndexError`). */
  datatype Result<+T> = Ok(value: T) | MissingSeparator(badLine: nat)

  /** One line as the comprehension reads it: strip the line, split it at
      the first `=`, strip both halves. `None` for a line without `=`. */
  function ParseLine(line: string): (r: Option<Entry>)
    ensures r.None? <==> SEPARATOR !in line
    ensures r.Some? ==> IsStripped(r.value.key) && IsStripped(r.value.value)
    ensures r.Some? ==> SEPARATOR !in r.value.key
  {
    StripKeepsNonSpace(line, SEPARATOR);
    match SplitFirst(Strip(line), SEPARATOR)
    case None => None
    case Some(halves) =>
      StripKeepsNonSpace(halves.0, SEPARATOR);
      Some(Entry(Strip(halves.0), Strip(halves.1)))
  }

  /** The key is the stripped text before the FIRST `=` of the line and the
      value the stripped text after it, which may itself contain `=`. */
  lemma ParseLineSplit(before: string, after: string)
    requires SEPARATOR !in before
    ensures ParseLine(before + [SEPARATOR] + after) == Some(Entry(Strip(before), Strip(after)))
  {
    var l, r := TrimLeft(before), TrimRight(after);
    StripAround(before, SEPARATOR, after);
    assert SEPARATOR !in l by {
      assert l == before[|before| - |l|..];
    }
    SplitFirstUnique(l, SEPARATOR, r);
    StripAfterTrimLeft(before);
    StripAfterTrimRight(after);
  }

  /** The same, read off any raw line that has a separator. */
  lemma ParseLineOfRaw(line: string)
    requires SEPARATOR in line
    ensures SplitFirst(line, SEPARATOR).Some?
    ensures var (before, after) := SplitFirst(line, SEPARATOR).value;
            ParseLine(line) == Some(Entry(Strip(before), Strip(after)))
  {
    var (before, after) := SplitFirst(line, SEPARATOR).value;
    ParseLineSplit(before, after);
  }

  /** A variable as `env` prints it: the name, `=`, the value. */
  function FormatLine(e: Entry): string {
    e.key + [SEPARATOR] + e.value
  }

  /** Round trip: an entry whose key has no `=` and whose key and value
      carry no surrounding whitespace is read back as itself, whatever
      separators the value holds. */
  lemma ParseFormatLine(e: Entry)
    requires SEPARATOR !in e.key && IsStripped(e.key) && IsStripped(e.value)
    ensures ParseLine(FormatLine(e)) == Some(e)
  {
    ParseLineSplit(e.key, e.value);
    StripIdempotent(e.key);
    StripIdempotent(e.value);
  }

  /** `map(lambda s: ..., proc.stdout)` over the output lines: every line
      parsed on its own, in order. */
  function ParseLines(lines: seq<string>): (r: seq<Option<Entry>>)
    ensures |r| == |lines|
    ensures forall i :: 0 <= i < |lines| ==> r[i] == ParseLine(lines[i])
  {
    seq(|lines|, i requires 0 <= i < |lines| => ParseLine(lines[i]))
  }

  /** `entry` is a parsed line with key `k`. */
  predicate HasKey(entry: Option<Entry>, k: string) {
    entry.Some? && entry.value.key == k
  }

  /** The dict comprehension: the parsed lines are consumed in order, the
      first unsplittable one aborts the whole read, and a later entry
      overwrites the value of an earlier one with the same key. */
  function Collect(parsed: seq<Option<Entry>>): (r: Result<map<string, string>>)
    ensures r.Ok? <==> forall j :: 0 <= j < |parsed| ==> parsed[j].Some?
    ensures r.MissingSeparator? ==>
              && r.badLine < |parsed|
              && parsed[r.badLine].None?
              && forall j :: 0 <= j < r.badLine ==> parsed[j].Some?
    decreases |parsed|
  {
    if parsed == [] then Ok(map[])
    else
      var init := parsed[..|parsed| - 1];
      match Collect(init)
      case MissingSeparator(i) => MissingSeparator(i)
      case Ok(m) =>
        match parsed[|parsed| - 1]
        case None => MissingSeparator(|parsed| - 1)
        case Some(e) => Ok(m[e.key := e.value])
  }

  /** Last wins: the value stored under a key is the value of the last
      entry carrying that key. */
  lemma {:induction false} CollectLastWins(parsed: seq<Option<Entry>>, i: nat)
    requires Collect(parsed).Ok?
    requires i < |parsed| && parsed[i].Some?
    requires forall j :: i < j < |parsed| ==> !HasKey(parsed[j], parsed[i].value.key)
    ensures parsed[i].value.key in Collect(parsed).value
    ensures Collect(parsed).value[parsed[i].value.key] == parsed[i].value.value
    decreases |parsed|
  {
    var init := parsed[..|parsed| - 1];
    if i < |parsed| - 1 {
      assert init[i] == parsed[i];
      forall j | i < j < |init| ensures !HasKey(init[j], init[i].value.key) {
        assert init[j] == parsed[j];
      }
      CollectLastWins(init, i);
      assert !HasKey(parsed[|parsed| - 1], parsed[i].value.key);
    }
  }

  /** Nothing is invented: every key comes from an entry, its value is that
      entry's value, and no later entry carries the key again. */
  lemma {:induction false} CollectFromEntries(parsed: seq<Option<Entry>>, k: string)
    requires Collect(parsed).Ok? && k in Collect(parsed).value
    ensures exists i ::
              && 0 <= i < |parsed|
              && parsed[i] == Some(Entry(k, Collect(parsed).value[k]))
              && forall j :: i < j < |parsed| ==> !HasKey(parsed[j], k)
    decreases |parsed|
  {
    var n := |parsed| - 1;
    var init := parsed[..n];
    if parsed[n].value.key == k {
      assert parsed[n] == Some(Entry(k, Collect(parsed).value[k]));
    } else {
      assert k in Collect(init).value;
      CollectFromEntries(init, k);
      var i :| 0 <= i < |init| && init[i] == Some(Entry(k, Collect(init).value[k]))
                && forall j :: i < j < |init| ==> !HasKey(init[j], k);
      assert init[i] == parsed[i];
      forall j | i < j < |parsed| ensures !HasKey(parsed[j], k) {
        if j < n {
          assert init[j] == parsed[j];
        }
      }
    }
  }

  /** If some entry carries `k`, one of them is the last. */
  lemma {:induction false} LastWithKey(parsed: seq<Option<Entry>>, k: string, i: nat)
    requires i < |parsed| && HasKey(parsed[i], k)
    ensures exists l :: i <= l < |parsed| && HasKey(parsed[l], k)
                        && forall j :: l < j < |parsed| ==> !HasKey(parsed[j], k)
    decreases |parsed| - i
  {
    if j :| i < j < |parsed| && HasKey(parsed[j], k) {
      LastWithKey(parsed, k, j);
    }
  }

  /** The keys collected are exactly the keys of the entries. */
  lemma CollectKeys(parsed: seq<Option<Entry>>, k: string)
    requires Collect(parsed).Ok?
    ensures k in Collect(parsed).value <==> exists i :: 0 <= i < |parsed| && HasKey(parsed[i], k)
  {
    if k in Collect(parsed).value {
      CollectFromEntries(parsed, k);
    }
    if i :| 0 <= i < |parsed| && HasKey(parsed[i], k) {
      LastWithKey(parsed, k, i);
      var l :| i <= l < |parsed| && HasKey(parsed[l], k)
                && forall j :: l < j < |parsed| ==> !HasKey(parsed[j], k);
      CollectLastWins(parsed, l);
    }
  }

  /** `source_env`: the comprehension over the parsed lines. */
  function ParseEnv(lines: seq<string>): (r: Result<map<string, string>>)
    ensures r.Ok? <==> forall j :: 0 <= j < |lines| ==> SEPARATOR in lines[j]
    ensures r.MissingSeparator? ==>
              && r.badLine < |lines|
              && SEPARATOR !in lines[r.badLine]
              && forall j :: 0 <= j < r.badLine ==> SEPARATOR in lines[j]
  {
    Collect(ParseLines(lines))
  }

  /** The keys kept: those containing `pattern` anywhere. */
  function SelectMatching(env: map<string, string>, pattern: string): (r: map<string, string>)
    ensures forall k :: k in r ==> Contains(k, pattern)
    ensures forall k :: k in env && Contains(k, pattern) ==> k in r && r[k] == env[k]
    ensures r.Keys <= env.Keys
  {
    map k | k in env && Contains(k, pattern) :: env[k]
  }

  /** `import_os_variables(SOURCE, PATTERN)`, with the existence of the file
      and the lines `env` prints after sourcing it as inputs. A missing
      file gives the empty map. */
  function ImportOsVariables(fileExists: bool, lines: seq<string>, pattern: string)
    : (r: Result<map<string, string>>)
    ensures !fileExists ==> r == Ok(map[])
    ensures fileExists ==> (r.Ok? <==> forall j :: 0 <= j < |lines| ==> SEPARATOR in lines[j])
    ensures r.Ok? ==> forall k :: k in r.value ==> Contains(k, pattern)
  {
    if !fileExists then Ok(map[])
    else
      match ParseEnv(lines)
      case MissingSeparator(i) => MissingSeparator(i)
      case Ok(env) => Ok(SelectMatching(env, pattern))
  }

  /** What the import returns for an existing file whose lines all have a
      separator: the key of the last line carrying it is present exactly
      when it contains the pattern, with the value of that line. */
  lemma ImportOsVariablesEntry(lines: seq<string>, pattern: string, i: nat)
    requires ParseEnv(lines).Ok?
    requires i < |lines|
    requires forall j :: i < j < |lines| ==> !HasKey(ParseLine(lines[j]), ParseLine(lines[i]).value.key)
    ensures var e := ParseLine(lines[i]).value;
            var r := ImportOsVariables(true, lines, pattern).value;
            (e.key in r <==> Contains(e.key, pattern)) && (e.key in r ==> r[e.key] == e.value)
  {
    var parsed := ParseLines(lines);
    var env := Collect(parsed).value;
    CollectLastWins(parsed, i);
    assert ImportOsVariables(true, lines, pattern).value == SelectMatching(env, pattern);
  }

  /** A key that no line carries is never imported. */
  lemma ImportOsVariablesOnlyFromLines(lines: seq<string>, pattern: string, k: string)
    requires ParseEnv(lines).Ok?
    requires forall j :: 0 <= j < |lines| ==> !HasKey(ParseLine(lines[j]), k)
    ensures k !in ImportOsVariables(true, lines, pattern).value
  {
    var parsed := ParseLines(lines);
    CollectKeys(parsed, k);
  }
}
