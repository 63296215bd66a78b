/**
 * The deployment settings kept by `ReplitDeployment` (replit_deployment.py):
 * the configuration record and its updates, and the `.env` rewrite done by
 * `update_environment_variables` (read `key=value` lines into an insertion-
 * ordered dict, overlay the new variables, write one line per entry).
 */
module Deployment {
  import opened Wrappers
  import opened Strings

  datatype Schedule = Schedule(enabled: bool, frequency: string, time: string, day: int)

  datatype KeepAliveSettings = KeepAliveSettings(enabled: bool, pingInterval: int, restartThreshold: int)

  datatype EnvironmentMode = EnvironmentMode(production: bool, debug: bool)

  /** The contents of .replit.deployment.json. */
  datatype Config = Config(
    autoDeploy: bool,
    schedule: Schedule,
    keepAlive: KeepAliveSettings,
    environment: EnvironmentMode,
    lastDeployment: Option<string>,
    deploymentCount: int)

  /** The configuration used when no readable file exists. */
  function DefaultConfig(): (c: Config)
    ensures !c.autoDeploy && c.deploymentCount == 0 && c.lastDeployment == None
    ensures !c.schedule.enabled && c.keepAlive.enabled && c.environment.production && !c.environment.debug
  {
    Config(
      false,
      Schedule(false, "daily", "00:00", 1),
      KeepAliveSettings(true, 300, 3),
      EnvironmentMode(true, false),
      None,
      0)
  }

  // ---------------------------------------------------------------------------
  // Insertion-ordered dicts of environment variables

  /** A Python dict from names to values, in insertion order. */
  type EnvMap = seq<(string, string)>

  function KeySet(d: EnvMap): set<string> {
    if d == [] then {} else {d[0].0} + KeySet(d[1..])
  }

  lemma {:induction false} KeySetSpec(d: EnvMap, k: string)
    ensures k in KeySet(d) <==> exists i :: 0 <= i < |d| && d[i].0 == k
  {
    if d != [] {
      KeySetSpec(d[1..], k);
      if k in KeySet(d[1..]) {
        var i :| 0 <= i < |d[1..]| && d[1..][i].0 == k;
        assert d[i + 1].0 == k;
      }
      if exists i :: 0 <= i < |d| && d[i].0 == k {
        var i :| 0 <= i < |d| && d[i].0 == k;
        if i > 0 {
          assert d[1..][i - 1].0 == k;
        }
      }
    }
  }

  lemma {:induction false} KeySetAppend(a: EnvMap, b: EnvMap)
    ensures KeySet(a + b) == KeySet(a) + KeySet(b)
  {
    if a != [] {
      assert (a + b)[1..] == a[1..] + b;
      KeySetAppend(a[1..], b);
    } else {
      assert a + b == b;
    }
  }

  predicate DistinctKeys(d: EnvMap) {
    forall i, j :: 0 <= i < j < |d| ==> d[i].0 != d[j].0
  }

  lemma {:induction false} NotInTailKeys(e: EnvMap)
    requires e != [] && DistinctKeys(e)
    ensures e[0].0 !in KeySet(e[1..]) && DistinctKeys(e[1..])
  {
    KeySetSpec(e[1..], e[0].0);
    forall i | 0 <= i < |e[1..]| ensures e[1..][i].0 != e[0].0 {
      assert e[1..][i] == e[i + 1];
    }
  }

  /** `d.get(k)`. */
  function Lookup(d: EnvMap, k: string): (r: Option<string>)
    ensures r.Some? <==> k in KeySet(d)
  {
    if d == [] then None
    else if d[0].0 == k then Some(d[0].1)
    else Lookup(d[1..], k)
  }

  /** `d[k] = v`: a present key keeps its place and takes the new value; a new key goes last. */
  function Assign(d: EnvMap, k: string, v: string): (r: EnvMap)
    ensures KeySet(r) == KeySet(d) + {k}
  {
    if d == [] then [(k, v)]
    else if d[0].0 == k then
      var r := [(k, v)] + d[1..];
      assert r[1..] == d[1..];
      r
    else
      var t := Assign(d[1..], k, v);
      var r := [d[0]] + t;
      assert r[1..] == t;
      r
  }

  /** After `d[k] = v`, `k` maps to `v` and every other key to what it mapped to before. */
  lemma {:induction false} AssignLookup(d: EnvMap, k: string, v: string, k': string)
    ensures Lookup(Assign(d, k, v), k') == if k' == k then Some(v) else Lookup(d, k')
  {
    if d != [] {
      var r := Assign(d, k, v);
      if d[0].0 == k {
        assert r[1..] == d[1..];
      } else {
        assert r[1..] == Assign(d[1..], k, v);
        AssignLookup(d[1..], k, v, k');
      }
    }
  }

  /** A new key is appended at the end. */
  lemma {:induction false} AssignNew(d: EnvMap, k: string, v: string)
    requires k !in KeySet(d)
    ensures Assign(d, k, v) == d + [(k, v)]
  {
    if d != [] {
      assert d[0].0 != k;
      AssignNew(d[1..], k, v);
      assert [d[0]] + (d[1..] + [(k, v)]) == d + [(k, v)];
    }
  }

  /** A present key keeps its position and takes the new value; nothing else moves. */
  lemma {:induction false} AssignExisting(d: EnvMap, k: string, v: string)
    requires DistinctKeys(d) && k in KeySet(d)
    ensures |Assign(d, k, v)| == |d|
    ensures forall i :: 0 <= i < |d| ==> Assign(d, k, v)[i] == if d[i].0 == k then (k, v) else d[i]
  {
    var r := Assign(d, k, v);
    NotInTailKeys(d);
    if d[0].0 == k {
      assert r == [(k, v)] + d[1..];
      KeySetSpec(d[1..], k);
      forall i | 0 < i < |d| ensures r[i] == d[i] && d[i].0 != k {
        assert r[i] == d[1..][i - 1] == d[i];
      }
    } else {
      var t := Assign(d[1..], k, v);
      assert r == [d[0]] + t;
      AssignExisting(d[1..], k, v);
      forall i | 0 < i < |d| ensures r[i] == if d[i].0 == k then (k, v) else d[i] {
        assert r[i] == t[i - 1] && d[1..][i - 1] == d[i];
      }
    }
  }

  /** Assignment keeps the keys distinct. */
  lemma AssignDistinct(d: EnvMap, k: string, v: string)
    requires DistinctKeys(d)
    ensures DistinctKeys(Assign(d, k, v))
  {
    var r := Assign(d, k, v);
    if k in KeySet(d) {
      AssignExisting(d, k, v);
      assert forall i :: 0 <= i < |r| ==> r[i].0 == d[i].0;
    } else {
      AssignNew(d, k, v);
      KeySetSpec(d, k);
      forall i, j | 0 <= i < j < |r| ensures r[i].0 != r[j].0 {
        if j == |d| {
          assert r[i] == d[i] && r[j] == (k, v);
        } else {
          assert r[i] == d[i] && r[j] == d[j];
        }
      }
    }
  }

  /** `d.update(e)`: assign every entry of `e`, in `e`'s order. */
  function Merge(d: EnvMap, e: EnvMap): (r: EnvMap)
    ensures KeySet(r) == KeySet(d) + KeySet(e)
    decreases e
  {
    if e == [] then d else Merge(Assign(d, e[0].0, e[0].1), e[1..])
  }

  lemma {:induction false} MergeDistinct(d: EnvMap, e: EnvMap)
    requires DistinctKeys(d)
    ensures DistinctKeys(Merge(d, e))
    decreases e
  {
    if e != [] {
      AssignDistinct(d, e[0].0, e[0].1);
      MergeDistinct(Assign(d, e[0].0, e[0].1), e[1..]);
    }
  }

  /** Existing entries in their places, with the value from `e` where `e` has the key. */
  function Override(d: EnvMap, e: EnvMap): (r: EnvMap)
    ensures |r| == |d|
  {
    seq(|d|, i requires 0 <= i < |d| =>
      (d[i].0, match Lookup(e, d[i].0) case Some(v) => v case None => d[i].1))
  }

  /** The entries of `e` whose keys `d` lacks, in `e`'s order. */
  function NewEntries(d: EnvMap, e: EnvMap): EnvMap {
    if e == [] then []
    else (if e[0].0 in KeySet(d) then [] else [e[0]]) + NewEntries(d, e[1..])
  }

  lemma {:induction false} NewEntriesCongruent(d: EnvMap, d': EnvMap, e: EnvMap)
    requires forall i :: 0 <= i < |e| ==> (e[i].0 in KeySet(d) <==> e[i].0 in KeySet(d'))
    ensures NewEntries(d, e) == NewEntries(d', e)
  {
    if e != [] {
      assert forall i :: 0 < i < |e| ==> e[1..][i - 1] == e[i];
      NewEntriesCongruent(d, d', e[1..]);
    }
  }

  /** The first entry of `e`, when `d` has its key, overwrites that key in place. */
  lemma OverrideStepExisting(d: EnvMap, e: EnvMap)
    requires DistinctKeys(d) && DistinctKeys(e) && e != [] && e[0].0 in KeySet(d)
    ensures Override(Assign(d, e[0].0, e[0].1), e[1..]) == Override(d, e)
  {
    var x, rest := e[0], e[1..];
    var d' := Assign(d, x.0, x.1);
    AssignExisting(d, x.0, x.1);
    NotInTailKeys(e);
    var a, b := Override(d', rest), Override(d, e);
    forall i | 0 <= i < |d| ensures a[i] == b[i] {
      if d[i].0 == x.0 {
        assert Lookup(rest, x.0).None? && Lookup(e, x.0) == Some(x.1);
      } else {
        assert d'[i] == d[i] && Lookup(e, d[i].0) == Lookup(rest, d[i].0);
      }
    }
  }

  /** The first entry of `e`, when `d` lacks its key, is appended after the overridden entries. */
  lemma OverrideStepNew(d: EnvMap, e: EnvMap)
    requires DistinctKeys(e) && e != [] && e[0].0 !in KeySet(d)
    ensures Override(Assign(d, e[0].0, e[0].1), e[1..]) == Override(d, e) + [e[0]]
  {
    var x, rest := e[0], e[1..];
    var d' := Assign(d, x.0, x.1);
    AssignNew(d, x.0, x.1);
    NotInTailKeys(e);
    KeySetSpec(d, x.0);
    var a, b := Override(d', rest), Override(d, e) + [x];
    forall i | 0 <= i < |d'| ensures a[i] == b[i] {
      if i < |d| {
        assert d'[i] == d[i] && d[i].0 != x.0;
        assert Lookup(e, d[i].0) == Lookup(rest, d[i].0);
      } else {
        assert d'[i] == x && Lookup(rest, x.0).None?;
      }
    }
  }

  /** Assigning the first entry of `e` does not change which later entries are new. */
  lemma NewEntriesStep(d: EnvMap, e: EnvMap)
    requires DistinctKeys(e) && e != []
    ensures NewEntries(Assign(d, e[0].0, e[0].1), e[1..]) == NewEntries(d, e[1..])
  {
    var x, rest := e[0], e[1..];
    var d' := Assign(d, x.0, x.1);
    NotInTailKeys(e);
    forall i | 0 <= i < |rest| ensures rest[i].0 in KeySet(d) <==> rest[i].0 in KeySet(d') {
      KeySetSpec(rest, rest[i].0);
    }
    NewEntriesCongruent(d, d', rest);
  }

  /**
   * `dict.update` on insertion-ordered dicts: existing keys stay in place and
   * take the new values, and the new keys follow in the order of `e`.
   */
  lemma {:induction false} MergeIsOverrideThenAppend(d: EnvMap, e: EnvMap)
    requires DistinctKeys(d) && DistinctKeys(e)
    ensures Merge(d, e) == Override(d, e) + NewEntries(d, e)
    decreases e
  {
    if e == [] {
      assert Override(d, e) == d;
    } else {
      NotInTailKeys(e);
      AssignDistinct(d, e[0].0, e[0].1);
      MergeIsOverrideThenAppend(Assign(d, e[0].0, e[0].1), e[1..]);
      if e[0].0 in KeySet(d) {
        MergeStepExisting(d, e);
      } else {
        MergeStepNew(d, e);
      }
    }
  }

  /** One step of the update when `d` already has the key of `e`'s first entry. */
  lemma {:induction false} MergeStepExisting(d: EnvMap, e: EnvMap)
    requires DistinctKeys(d) && DistinctKeys(e) && e != [] && e[0].0 in KeySet(d)
    requires Merge(Assign(d, e[0].0, e[0].1), e[1..])
      == Override(Assign(d, e[0].0, e[0].1), e[1..]) + NewEntries(Assign(d, e[0].0, e[0].1), e[1..])
    ensures Merge(d, e) == Override(d, e) + NewEntries(d, e)
  {
    NewEntriesStep(d, e);
    OverrideStepExisting(d, e);
    assert NewEntries(d, e) == NewEntries(d, e[1..]);
  }

  /** One step of the update when `e`'s first entry brings a new key. */
  lemma {:induction false} MergeStepNew(d: EnvMap, e: EnvMap)
    requires DistinctKeys(e) && e != [] && e[0].0 !in KeySet(d)
    requires Merge(Assign(d, e[0].0, e[0].1), e[1..])
      == Override(Assign(d, e[0].0, e[0].1), e[1..]) + NewEntries(Assign(d, e[0].0, e[0].1), e[1..])
    ensures Merge(d, e) == Override(d, e) + NewEntries(d, e)
  {
    NewEntriesStep(d, e);
    OverrideStepNew(d, e);
    Regroup(Merge(d, e), Override(Assign(d, e[0].0, e[0].1), e[1..]), Override(d, e),
      e[0], NewEntries(d, e[1..]), NewEntries(d, e));
  }

  /** `m == (o + [x]) + n` regrouped as `o` followed by `[x] + n`. */
  lemma Regroup<T>(m: seq<T>, o': seq<T>, o: seq<T>, x: T, n: seq<T>, full: seq<T>)
    requires m == o' + n && o' == o + [x] && full == [x] + n
    ensures m == o + full
  {
  }

  // ---------------------------------------------------------------------------
  // Reading and writing the .env file

  /** Reading in text mode: "\r\n" and a lone "\r" both become "\n". */
  function UniversalNewlines(s: string): (r: string)
    ensures '\r' !in r
  {
    if s == [] then []
    else if s[0] == '\r' then "\n" + UniversalNewlines(if |s| > 1 && s[1] == '\n' then s[2..] else s[1..])
    else [s[0]] + UniversalNewlines(s[1..])
  }

  lemma {:induction false} UniversalNewlinesIdentity(s: string)
    requires '\r' !in s
    ensures UniversalNewlines(s) == s
  {
    if s != [] {
      assert s[0] != '\r';
      UniversalNewlinesIdentity(s[1..]);
      assert s == [s[0]] + s[1..];
    }
  }

  /** `for line in f`: the lines of the text, each with its '\n' (the last one may lack it). */
  function Lines(s: string): (ls: seq<string>)
    decreases |s|
  {
    if s == [] then []
    else match Find(s, "\n")
      case None => [s]
      case Some(i) => [s[..i + 1]] + Lines(s[i + 1..])
  }

  /** One line of the .env file: an entry when it has '=' and does not start with '#'. */
  function ParseLine(line: string): Option<(string, string)> {
    if In(line, "=") && !StartsWith(line, "#") then
      var t := Strip(line);
      ContainsChar(line, '=');
      StripKeeps(line, '=');
      ContainsChar(t, '=');
      var i := Find(t, "=").value;
      Some((t[..i], t[i + 1..]))
    else
      None
  }

  /** The dict the reading loop builds from `lines`: later lines win, first positions stay. */
  function ParseLines(lines: seq<string>): (d: EnvMap)
    ensures DistinctKeys(d)
  {
    if lines == [] then []
    else
      var d := ParseLines(lines[..|lines| - 1]);
      match ParseLine(lines[|lines| - 1])
      case None => d
      case Some((k, v)) =>
        AssignDistinct(d, k, v);
        Assign(d, k, v)
  }

  lemma ParseLinesPrefix(lines: seq<string>, i: nat)
    requires i < |lines|
    ensures ParseLines(lines[..i + 1]) ==
      match ParseLine(lines[i])
      case None => ParseLines(lines[..i])
      case Some((k, v)) => Assign(ParseLines(lines[..i]), k, v)
  {
    assert lines[..i + 1][..i] == lines[..i];
  }

  /** The variables read from a .env file with contents `text`. */
  function ParseEnv(text: string): EnvMap {
    ParseLines(Lines(UniversalNewlines(text)))
  }

  function EnvLine(entry: (string, string)): string {
    entry.0 + "=" + entry.1 + "\n"
  }

  /** What the writing loop produces: one "key=value\n" line per entry. */
  function Serialize(d: EnvMap): string {
    if d == [] then "" else EnvLine(d[0]) + Serialize(d[1..])
  }

  lemma {:induction false} SerializeSnoc(d: EnvMap, x: (string, string))
    ensures Serialize(d + [x]) == Serialize(d) + EnvLine(x)
  {
    if d != [] {
      assert (d + [x])[1..] == d[1..] + [x];
      SerializeSnoc(d[1..], x);
    }
  }

  /** An entry that survives being written and read back unchanged. */
  predicate WellFormedEntry(entry: (string, string)) {
    GoodKey(entry.0) && GoodValue(entry.1)
  }

  predicate GoodKey(k: string) {
    '=' !in k && '\n' !in k && '\r' !in k && !StartsWith(k, "#") && (k == [] || !IsSpace(k[0]))
  }

  predicate GoodValue(v: string) {
    '\n' !in v && '\r' !in v && (v == [] || !IsSpace(v[|v| - 1]))
  }

  /** The written line of a well-formed entry has its '='. */
  lemma EnvLineHasEquals(k: string, v: string)
    requires '=' !in k
    ensures In(EnvLine((k, v)), "=")
  {
    assert EnvLine((k, v)) == k + ['='] + (v + "\n");
    FindFirstChar(k, '=', v + "\n");
  }

  /** The written line of a well-formed entry is not a comment. */
  lemma EnvLineNotComment(k: string, v: string)
    requires GoodKey(k)
    ensures !StartsWith(EnvLine((k, v)), "#")
  {
    var line := EnvLine((k, v));
    if k == [] {
      assert line[0] == '=';
    } else {
      assert line[0] == k[0];
      assert k[..1] != "#";
    }
    assert line[..1] != "#";
  }

  /** The written line of a well-formed entry strips to `k=v`. */
  lemma EnvLineStrips(k: string, v: string)
    requires WellFormedEntry((k, v))
    ensures Strip(EnvLine((k, v))) == k + "=" + v
  {
    var body := k + "=" + v;
    var line := EnvLine((k, v));
    assert line == body + "\n";
    assert line[0] == if k == [] then '=' else k[0];
    assert body[|body| - 1] == if v == [] then '=' else v[|v| - 1];
    LStripUnchanged(line);
    RStripDropsNewline(body);
  }

  /** A written line parses back to the entry it was written from. */
  lemma ParseEnvLine(entry: (string, string))
    requires WellFormedEntry(entry)
    ensures ParseLine(EnvLine(entry)) == Some(entry)
  {
    var (k, v) := entry;
    var body := k + "=" + v;
    EnvLineHasEquals(k, v);
    EnvLineNotComment(k, v);
    EnvLineStrips(k, v);
    FindFirstChar(k, '=', v);
    assert body == k + ['='] + v;
    assert body[..|k|] == k && body[|k| + 1..] == v;
  }

  /** The lines written for `d`, one per entry. */
  function EnvLines(d: EnvMap): (ls: seq<string>)
    ensures |ls| == |d|
  {
    if d == [] then [] else [EnvLine(d[0])] + EnvLines(d[1..])
  }

  lemma {:induction false} EnvLinesSnoc(d: EnvMap, x: (string, string))
    ensures EnvLines(d + [x]) == EnvLines(d) + [EnvLine(x)]
  {
    if d != [] {
      assert (d + [x])[0] == d[0];
      assert (d + [x])[1..] == d[1..] + [x];
      EnvLinesSnoc(d[1..], x);
    } else {
      assert d + [x] == [x];
    }
  }

  /** Splitting text at its first '\n' when that ends the first line. */
  lemma LinesCons(line: string, rest: string)
    requires '\n' !in line
    ensures Lines(line + "\n" + rest) == [line + "\n"] + Lines(rest)
  {
    var s := line + "\n" + rest;
    assert s == line + ['\n'] + rest;
    FindFirstChar(line, '\n', rest);
    assert s[..|line| + 1] == line + "\n";
    assert s[|line| + 1..] == rest;
  }

  /** Splitting the written text into lines gives back the written lines. */
  lemma {:induction false} LinesOfSerialized(d: EnvMap)
    requires forall i :: 0 <= i < |d| ==> WellFormedEntry(d[i])
    ensures Lines(Serialize(d)) == EnvLines(d)
    decreases |d|
  {
    if d != [] {
      var first := d[0].0 + "=" + d[0].1;
      var rest := Serialize(d[1..]);
      assert EnvLine(d[0]) == first + "\n";
      assert '\n' !in first;
      LinesCons(first, rest);
      LinesOfSerialized(d[1..]);
    }
  }

  /** Parsing the written lines rebuilds the dict, entry by entry. */
  lemma {:induction false} ParseLinesOfEntries(d: EnvMap)
    requires DistinctKeys(d)
    requires forall i :: 0 <= i < |d| ==> WellFormedEntry(d[i])
    ensures ParseLines(EnvLines(d)) == d
    decreases |d|
  {
    if d != [] {
      var n := |d|;
      var init, last := d[..n - 1], d[n - 1];
      assert d == init + [last];
      var lines := EnvLines(init) + [EnvLine(last)];
      assert EnvLines(d) == lines by {
        EnvLinesSnoc(init, last);
      }
      assert ParseLines(EnvLines(init)) == init by {
        ParseLinesOfEntries(init);
      }
      assert ParseLines(lines) == Assign(init, last.0, last.1) by {
        assert lines[..|lines| - 1] == EnvLines(init);
        ParseEnvLine(last);
      }
      assert Assign(init, last.0, last.1) == d by {
        KeySetSpec(init, last.0);
        AssignNew(init, last.0, last.1);
      }
    }
  }

  /** Reading back a written .env file gives the written dict, when every entry is well formed. */
  lemma EnvRoundTrip(d: EnvMap)
    requires DistinctKeys(d)
    requires forall i :: 0 <= i < |d| ==> WellFormedEntry(d[i])
    ensures ParseEnv(Serialize(d)) == d
  {
    var text := Serialize(d);
    assert '\r' !in text by {
      SerializeNoCarriageReturn(d);
    }
    UniversalNewlinesIdentity(text);
    LinesOfSerialized(d);
    ParseLinesOfEntries(d);
  }

  lemma {:induction false} SerializeNoCarriageReturn(d: EnvMap)
    requires forall i :: 0 <= i < |d| ==> WellFormedEntry(d[i])
    ensures '\r' !in Serialize(d)
  {
    if d != [] {
      SerializeNoCarriageReturn(d[1..]);
    }
  }

  lemma {:induction false} LookupFound(d: EnvMap, k: string)
    requires k in KeySet(d)
    ensures exists i :: 0 <= i < |d| && d[i] == (k, Lookup(d, k).value)
  {
    if d[0].0 != k {
      LookupFound(d[1..], k);
      var i :| 0 <= i < |d[1..]| && d[1..][i] == (k, Lookup(d, k).value);
      assert d[i + 1] == d[1..][i];
    }
  }

  lemma {:induction false} NewEntriesFrom(d: EnvMap, e: EnvMap)
    ensures forall i :: 0 <= i < |NewEntries(d, e)| ==> NewEntries(d, e)[i] in e
  {
    if e != [] {
      NewEntriesFrom(d, e[1..]);
      assert forall x :: x in e[1..] ==> x in e;
    }
  }

  /** Overlaying well-formed variables on well-formed variables leaves them well formed. */
  lemma MergeWellFormed(d: EnvMap, e: EnvMap)
    requires DistinctKeys(d) && DistinctKeys(e)
    requires forall i :: 0 <= i < |d| ==> WellFormedEntry(d[i])
    requires forall i :: 0 <= i < |e| ==> WellFormedEntry(e[i])
    ensures forall i :: 0 <= i < |Merge(d, e)| ==> WellFormedEntry(Merge(d, e)[i])
  {
    MergeIsOverrideThenAppend(d, e);
    OverrideWellFormed(d, e);
    NewEntriesFrom(d, e);
    WellFormedAppend(Override(d, e), NewEntries(d, e));
  }

  lemma OverrideWellFormed(d: EnvMap, e: EnvMap)
    requires forall i :: 0 <= i < |d| ==> WellFormedEntry(d[i])
    requires forall i :: 0 <= i < |e| ==> WellFormedEntry(e[i])
    ensures forall i :: 0 <= i < |Override(d, e)| ==> WellFormedEntry(Override(d, e)[i])
  {
    var o := Override(d, e);
    forall i | 0 <= i < |o| ensures WellFormedEntry(o[i]) {
      if Lookup(e, d[i].0).Some? {
        LookupFound(e, d[i].0);
      }
    }
  }

  lemma WellFormedAppend(a: EnvMap, b: EnvMap)
    requires forall i :: 0 <= i < |a| ==> WellFormedEntry(a[i])
    requires forall i :: 0 <= i < |b| ==> WellFormedEntry(b[i])
    ensures forall i :: 0 <= i < |a + b| ==> WellFormedEntry((a + b)[i])
  {
    forall i | 0 <= i < |a + b| ensures WellFormedEntry((a + b)[i]) {
      if i >= |a| {
        assert (a + b)[i] == b[i - |a|];
      }
    }
  }

  /**
   * After update_environment_variables, reading the file back gives the old
   * variables in place with their new values, then the new variables, when
   * every name and value can be written and read back.
   */
  lemma UpdatedFileReadsBack(existing: string, envVars: EnvMap)
    requires DistinctKeys(envVars)
    requires forall i :: 0 <= i < |envVars| ==> WellFormedEntry(envVars[i])
    requires forall i :: 0 <= i < |ParseEnv(existing)| ==> WellFormedEntry(ParseEnv(existing)[i])
    ensures ParseEnv(Serialize(Merge(ParseEnv(existing), envVars)))
      == Override(ParseEnv(existing), envVars) + NewEntries(ParseEnv(existing), envVars)
  {
    var d := ParseEnv(existing);
    MergeWellFormed(d, envVars);
    MergeDistinct(d, envVars);
    MergeIsOverrideThenAppend(d, envVars);
    EnvRoundTrip(Merge(d, envVars));
  }

  /** A line that has no '=' or starts with '#' (a comment, a blank line) contributes nothing. */
  lemma CommentsAndBlankLinesIgnored(lines: seq<string>, line: string)
    requires !In(line, "=") || StartsWith(line, "#")
    ensures ParseLines(lines + [line]) == ParseLines(lines)
  {
    assert (lines + [line])[..|lines|] == lines;
  }

  /** A key seen twice keeps its first position and takes the later value. */
  lemma RepeatedKeyLastValueWins(lines: seq<string>, line: string, k: string, v: string)
    requires ParseLine(line) == Some((k, v)) && k in KeySet(ParseLines(lines))
    ensures |ParseLines(lines + [line])| == |ParseLines(lines)|
    ensures forall i :: 0 <= i < |ParseLines(lines)| ==>
      ParseLines(lines + [line])[i] == if ParseLines(lines)[i].0 == k then (k, v) else ParseLines(lines)[i]
    ensures Lookup(ParseLines(lines + [line]), k) == Some(v)
  {
    assert (lines + [line])[..|lines|] == lines;
    assert ParseLines(lines + [line]) == Assign(ParseLines(lines), k, v);
    AssignExisting(ParseLines(lines), k, v);
    AssignLookup(ParseLines(lines), k, v, k);
  }

  // ---------------------------------------------------------------------------

  class ReplitDeployment {
    var config: Config

    /** _load_config: the stored configuration, or the default when the file is missing or unreadable. */
    constructor (stored: Option<Config>)
      ensures config == if stored.Some? then stored.value else DefaultConfig()
    {
      match stored
      case Some(c) => config := c;
      case None => config := DefaultConfig();
    }

    method SetSchedule(enabled: bool, frequency: string, time: string, day: int)
      modifies this
      ensures config == old(config).(schedule := Schedule(enabled, frequency, time, day))
    {
      config := config.(schedule := Schedule(enabled, frequency, time, day));
    }

    method SetKeepAlive(enabled: bool, pingInterval: int, restartThreshold: int)
      modifies this
      ensures config == old(config).(keepAlive := KeepAliveSettings(enabled, pingInterval, restartThreshold))
    {
      config := config.(keepAlive := KeepAliveSettings(enabled, pingInterval, restartThreshold));
    }

    method SetEnvironmentMode(production: bool, debug: bool)
      modifies this
      ensures config == old(config).(environment := EnvironmentMode(production, debug))
    {
      config := config.(environment := EnvironmentMode(production, debug));
    }

    /** record_deployment at time `now` (an ISO timestamp). */
    method RecordDeployment(now: string)
      modifies this
      ensures config == old(config).(lastDeployment := Some(now), deploymentCount := old(config.deploymentCount) + 1)
    {
      config := config.(lastDeployment := Some(now), deploymentCount := config.deploymentCount + 1);
    }

    /** The configuration half of setup_auto_deployment. */
    method SetupAutoDeployment()
      modifies this
      ensures config == old(config).(autoDeploy := true)
    {
      config := config.(autoDeploy := true);
    }

    /**
     * update_environment_variables: read the existing .env (None when the file
     * does not exist), overlay `envVars` and return the text written back.
     */
    method UpdateEnvironmentVariables(existing: Option<string>, envVars: EnvMap) returns (written: string)
      ensures written == Serialize(Merge(ParseEnv(if existing.Some? then existing.value else ""), envVars))
    {
      var existingVars: EnvMap := [];
      if existing.Some? {
        existingVars := ReadEnv(existing.value);
      } else {
        assert Lines(UniversalNewlines("")) == [];
      }
      existingVars := Merge(existingVars, envVars);
      written := WriteEnv(existingVars);
    }
  }

  /** The reading loop of update_environment_variables. */
  method ReadEnv(text: string) returns (vars: EnvMap)
    ensures vars == ParseEnv(text)
    ensures DistinctKeys(vars)
  {
    vars := [];
    var lines := Lines(UniversalNewlines(text));
    var i := 0;
    while i < |lines|
      invariant 0 <= i <= |lines|
      invariant vars == ParseLines(lines[..i])
    {
      ParseLinesPrefix(lines, i);
      match ParseLine(lines[i]) {
        case Some((key, value)) => vars := Assign(vars, key, value);
        case None =>
      }
      i := i + 1;
    }
    assert lines[..i] == lines;
  }

  /** The writing loop of update_environment_variables. */
  method WriteEnv(vars: EnvMap) returns (written: string)
    ensures written == Serialize(vars)
  {
    written := "";
    var j := 0;
    while j < |vars|
      invariant 0 <= j <= |vars|
      invariant written == Serialize(vars[..j])
    {
      SerializeSnoc(vars[..j], vars[j]);
      assert vars[..j + 1] == vars[..j] + [vars[j]];
      written := written + EnvLine(vars[j]);
      j := j + 1;
    }
    assert vars[..j] == vars;
  }
}
