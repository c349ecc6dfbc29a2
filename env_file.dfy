/** The `.env` store of `SpotifyAPI.update_env_file`: read `KEY=VALUE` lines into an
    insertion-ordered dictionary, set the refresh-token key, write the entries back. */
module EnvFile {
  import opened Wrappers
  import opened Text

  /** The key the refresh token is stored under. */
  const RefreshTokenKey: string := "SPOTIFY_REFRESH_TOKEN"

  /** The characters at which reading a text file ends a line (universal newlines). */
  const LineBreaks: set<char> := {'\n', '\r'}

  /** An insertion-ordered Python `dict` from keys to values, as an association list. */
  type Env = seq<(string, string)>

  /** The keys of `e` in insertion order. */
  function Keys(e: Env): seq<string> {
    seq(|e|, i requires 0 <= i < |e| => e[i].0)
  }

  /** No key occurs twice. */
  predicate Distinct(ks: seq<string>) {
    forall i, j :: 0 <= i < j < |ks| ==> ks[i] != ks[j]
  }

  /** Removing the first key of a list of distinct keys leaves distinct keys without it. */
  lemma DistinctTail(ks: seq<string>)
    requires Distinct(ks) && ks != []
    ensures Distinct(ks[1..]) && ks[0] !in ks[1..]
  {
    forall j | 0 <= j < |ks| - 1 ensures ks[1..][j] != ks[0] {
      assert ks[1..][j] == ks[j + 1];
    }
  }

  /** `e[key]` if present. */
  function Lookup(e: Env, key: string): Option<string>
    decreases |e|
  {
    if e == [] then None
    else if e[0].0 == key then Some(e[0].1)
    else Lookup(e[1..], key)
  }

  /** `e[key] = value` on a dict: an existing key keeps its position and takes the new
      value, a new key is appended at the end. */
  function Put(e: Env, key: string, value: string): (r: Env)
    requires Distinct(Keys(e))
    ensures Distinct(Keys(r))
    ensures key in Keys(e) ==>
      |r| == |e| && forall i :: 0 <= i < |e| ==> r[i] == (if e[i].0 == key then (key, value) else e[i])
    ensures key !in Keys(e) ==> r == e + [(key, value)]
    decreases |e|
  {
    if e == [] then [(key, value)]
    else
      var ks := Keys(e);
      KeysCons(e[0], e[1..]);
      assert [e[0]] + e[1..] == e;
      DistinctTail(ks);
      if e[0].0 == key then
        var r := [(key, value)] + e[1..];
        KeysCons((key, value), e[1..]);
        assert forall i :: 0 < i < |e| ==> e[i].0 != key by {
          forall i | 0 < i < |e| ensures e[i].0 != key { assert ks[0] != ks[i]; }
        }
        r
      else
        var tail := Put(e[1..], key, value);
        KeysCons(e[0], tail);
        assert e[0].0 !in Keys(tail) by {
          if key !in Keys(e[1..]) { assert Keys(tail) == Keys(e[1..]) + [key]; }
          else { assert Keys(tail) == Keys(e[1..]); }
        }
        DistinctCons(e[0].0, Keys(tail));
        [e[0]] + tail
  }

  /** The keys of an entry followed by a dictionary. */
  lemma KeysCons(x: (string, string), e: Env)
    ensures Keys([x] + e) == [x.0] + Keys(e)
  {
  }

  /** A new key in front of distinct keys keeps them distinct. */
  lemma DistinctCons(k: string, ks: seq<string>)
    requires Distinct(ks) && k !in ks
    ensures Distinct([k] + ks)
  {
    forall i, j | 0 <= i < j < |ks| + 1 ensures ([k] + ks)[i] != ([k] + ks)[j] {
      if i > 0 { assert ([k] + ks)[i] == ks[i - 1]; }
      assert ([k] + ks)[j] == ks[j - 1];
    }
  }

  /** The lines of a text file as `for line in f` reads them, without their terminators.
      Python translates "\r\n" and "\r" to "\n" when reading; splitting at either character
      gives the same lines plus empty ones, and empty lines are ignored below. */
  function Lines(text: string): (lines: seq<string>)
    ensures |lines| >= 1
    ensures forall i :: 0 <= i < |lines| ==> Avoids(lines[i], LineBreaks)
  {
    SplitOn(text, LineBreaks)
  }

  /** The reading of one line: a line with an '=' is stripped and split at its first '='
      (`line.strip().split("=", 1)`); any other line is skipped. The key never holds an
      '=', the value may. */
  function SplitLine(line: string): (r: Option<(string, string)>)
    ensures r.Some? <==> '=' in line
    ensures r.Some? ==> '=' !in r.value.0 && Strip(line) == r.value.0 + "=" + r.value.1
  {
    if '=' in line then
      StripKeeps(line, '=');
      var s := Strip(line);
      var i := FirstEquals(s);
      SplitAround(s, i);
      Some((s[..i], s[i + 1..]))
    else None
  }

  /** A text is the part before position `i`, the '=' at `i`, and the part after it. */
  lemma SplitAround(s: string, i: nat)
    requires i < |s| && s[i] == '='
    ensures s == s[..i] + "=" + s[i + 1..]
  {
  }

  /** The position of the first '=' in `s`. */
  function FirstEquals(s: string): (i: nat)
    requires '=' in s
    ensures i < |s| && s[i] == '=' && '=' !in s[..i]
    decreases |s|
  {
    if s[0] == '=' then 0
    else
      var j := FirstEquals(s[1..]);
      assert s[..j + 1] == [s[0]] + s[1..][..j];
      j + 1
  }

  /** The dictionary after reading one more line. */
  function ReadLine(e: Env, line: string): (r: Env)
    requires Distinct(Keys(e))
    ensures Distinct(Keys(r))
    ensures '=' !in line ==> r == e
    ensures (forall i :: 0 <= i < |e| ==> '=' !in e[i].0) ==> forall i :: 0 <= i < |r| ==> '=' !in r[i].0
  {
    match SplitLine(line)
    case None => e
    case Some(kv) => Put(e, kv.0, kv.1)
  }

  /** The dictionary the read loop builds from `lines`, line by line. Its keys are distinct
      and hold no '='. */
  function ParseLines(lines: seq<string>): (e: Env)
    ensures Distinct(Keys(e))
    ensures forall i :: 0 <= i < |e| ==> '=' !in e[i].0
    decreases |lines|
  {
    if lines == [] then []
    else ReadLine(ParseLines(lines[..|lines| - 1]), lines[|lines| - 1])
  }

  /** The lines of the `.env` file; a file that does not exist has none. */
  function FileLines(file: Option<string>): (lines: seq<string>)
    ensures file.None? ==> lines == []
    ensures forall i :: 0 <= i < |lines| ==> Avoids(lines[i], LineBreaks)
  {
    match file
    case None => []
    case Some(text) => Lines(text)
  }

  /** The dictionary read from the `.env` file (empty when the file does not exist). */
  function ParseFile(file: Option<string>): (e: Env)
    ensures Distinct(Keys(e))
  {
    ParseLines(FileLines(file))
  }

  /** One written line, `f"{key}={value}\n"`. */
  function EntryLine(entry: (string, string)): string {
    entry.0 + "=" + entry.1 + "\n"
  }

  /** The text the write loop produces from `e`, one line per entry in order. */
  function Serialize(e: Env): string
    decreases |e|
  {
    if e == [] then "" else Serialize(e[..|e| - 1]) + EntryLine(e[|e| - 1])
  }

  /** The text `update_env_file` writes when the file held `file` and the refresh token is `token`. */
  function Merge(file: Option<string>, token: string): string {
    Serialize(UpdatedEnv(file, token))
  }

  /** The dictionary `update_env_file` holds just before it writes. */
  function UpdatedEnv(file: Option<string>, token: string): Env {
    Put(ParseFile(file), RefreshTokenKey, token)
  }

  /** The value of `key` on the LAST line of `lines` that sets it: an independent statement
      of "later duplicate keys win". */
  function LastValue(lines: seq<string>, key: string): Option<string>
    decreases |lines|
  {
    if lines == [] then None
    else
      match SplitLine(lines[|lines| - 1])
      case Some(kv) => if kv.0 == key then Some(kv.1) else LastValue(lines[..|lines| - 1], key)
      case None => LastValue(lines[..|lines| - 1], key)
  }

  /** A key that a written line `key=value` gives back unchanged when read. */
  predicate WellFormedKey(k: string) {
    '=' !in k && Avoids(k, LineBreaks) && (k == [] || !IsSpace(k[0]))
  }

  /** A value that a written line `key=value` gives back unchanged when read. */
  predicate WellFormedValue(v: string) {
    Avoids(v, LineBreaks) && (v == [] || !IsSpace(v[|v| - 1]))
  }

  /** The refresh-token key can be written and read back. */
  lemma RefreshTokenKeyWellFormed()
    ensures WellFormedKey(RefreshTokenKey)
  {
    forall i | 0 <= i < |RefreshTokenKey| ensures RefreshTokenKey[i] !in LineBreaks && RefreshTokenKey[i] != '=' {
    }
  }

  /** A dictionary that survives being written and read back. */
  predicate WellFormedEnv(e: Env) {
    && Distinct(Keys(e))
    && forall i :: 0 <= i < |e| ==> WellFormedKey(e[i].0) && WellFormedValue(e[i].1)
  }

  /** `update_env_file` step by step: the read loop over the lines of the file, the
      assignment of the refresh token, and the write loop. */
  method UpdateEnvText(file: Option<string>, token: string) returns (text: string)
    ensures text == Merge(file, token)
  {
    var envVars: Env := [];
    var lines := FileLines(file);
    for n := 0 to |lines|
      invariant envVars == ParseLines(lines[..n])
    {
      assert lines[..n + 1][..n] == lines[..n];
      var line := lines[n];
      assert ParseLines(lines[..n + 1]) == ReadLine(envVars, line);
      if '=' in line {
        var kv := SplitLine(line).value;
        envVars := Put(envVars, kv.0, kv.1);
      }
    }
    assert lines[..|lines|] == lines;
    envVars := Put(envVars, RefreshTokenKey, token);
    text := "";
    for n := 0 to |envVars|
      invariant text == Serialize(envVars[..n])
    {
      assert envVars[..n + 1][..n] == envVars[..n];
      text := text + EntryLine(envVars[n]);
    }
    assert envVars[..|envVars|] == envVars;
  }

  // ----- The dictionary -----

  /** Looking up after `Put`: the assigned key gives the new value, every other key what it gave before. */
  lemma {:induction false} LookupPut(e: Env, key: string, value: string, k: string)
    requires Distinct(Keys(e))
    ensures Lookup(Put(e, key, value), k) == if k == key then Some(value) else Lookup(e, k)
    decreases |e|
  {
    if e != [] {
      assert Keys(e)[1..] == Keys(e[1..]);
      DistinctTail(Keys(e));
      if e[0].0 == key {
        assert ([(key, value)] + e[1..])[1..] == e[1..];
      } else {
        LookupPut(e[1..], key, value, k);
        assert ([e[0]] + Put(e[1..], key, value))[1..] == Put(e[1..], key, value);
      }
    }
  }

  /** A key is found exactly when it is one of the keys. */
  lemma {:induction false} LookupFound(e: Env, k: string)
    ensures Lookup(e, k).Some? <==> k in Keys(e)
    decreases |e|
  {
    if e != [] {
      assert Keys(e) == [e[0].0] + Keys(e[1..]);
      LookupFound(e[1..], k);
    }
  }

  /** Of two assignments to the same key the second wins. */
  lemma PutPut(e: Env, key: string, v1: string, v2: string)
    requires Distinct(Keys(e))
    ensures Put(Put(e, key, v1), key, v2) == Put(e, key, v2)
  {
    if key in Keys(e) {
      PutPutPresent(e, key, v1, v2);
    } else {
      PutPutAbsent(e, key, v1, v2);
    }
  }

  /** `PutPut` for a key the dictionary holds: both assignments replace it in place. */
  lemma PutPutPresent(e: Env, key: string, v1: string, v2: string)
    requires Distinct(Keys(e)) && key in Keys(e)
    ensures Put(Put(e, key, v1), key, v2) == Put(e, key, v2)
  {
    var r := Put(e, key, v1);
    var i :| 0 <= i < |Keys(e)| && Keys(e)[i] == key;
    assert Keys(r)[i] == key;
  }

  /** `PutPut` for a new key: the first assignment appends it, the second replaces it there. */
  lemma PutPutAbsent(e: Env, key: string, v1: string, v2: string)
    requires Distinct(Keys(e)) && key !in Keys(e)
    ensures Put(Put(e, key, v1), key, v2) == Put(e, key, v2)
  {
    var r := Put(e, key, v1);
    assert Keys(r)[|e|] == key;
    var r2, r3 := Put(r, key, v2), Put(e, key, v2);
    forall j | 0 <= j < |r| ensures r2[j] == r3[j] {
      if j < |e| { assert Keys(e)[j] == e[j].0; }
    }
  }

  /** Two assignments to the same key give dictionaries that differ only in that key's value. */
  lemma PutAlike(e: Env, key: string, v1: string, v2: string)
    requires Distinct(Keys(e))
    ensures var r1, r2 := Put(e, key, v1), Put(e, key, v2);
      && |r1| == |r2|
      && forall i :: 0 <= i < |r1| ==> r1[i] == r2[i] || (r1[i] == (key, v1) && r2[i] == (key, v2))
  {
  }

  /** Assigning a well-formed key and value keeps a dictionary well formed. */
  lemma PutWellFormed(e: Env, key: string, value: string)
    requires WellFormedEnv(e) && WellFormedKey(key) && WellFormedValue(value)
    ensures WellFormedEnv(Put(e, key, value))
  {
  }

  // ----- Reading -----

  /** Reading a file: the value of each key is the one on the last line that sets it
      ("later duplicate keys win"). */
  lemma {:induction false} ParseLookup(lines: seq<string>, k: string)
    ensures Lookup(ParseLines(lines), k) == LastValue(lines, k)
    decreases |lines|
  {
    if lines != [] {
      var init := lines[..|lines| - 1];
      ParseLookup(init, k);
      match SplitLine(lines[|lines| - 1])
      case None =>
      case Some(kv) => LookupPut(ParseLines(init), kv.0, kv.1, k);
    }
  }

  /** The key and value of a line `key=value` avoid what the line avoids. */
  lemma LineParts(k: string, v: string, cs: set<char>)
    requires Avoids(k + "=" + v, cs)
    ensures Avoids(k, cs) && Avoids(v, cs)
  {
    var s := k + "=" + v;
    assert s[..|k|] == k && s[|k| + 1..] == v;
    AvoidsSlice(s, 0, |k|, cs);
    AvoidsSlice(s, |k| + 1, |s|, cs);
  }

  /** A line `key=value` starts as its key and ends as its value. */
  lemma LineEnds(k: string, v: string)
    ensures var s := k + "=" + v;
      && (k != [] ==> s[0] == k[0])
      && (v != [] ==> s[|s| - 1] == v[|v| - 1])
  {
  }

  /** The key and value read from one line of a file are well formed. */
  lemma SplitLineWellFormed(line: string)
    requires Avoids(line, LineBreaks) && SplitLine(line).Some?
    ensures WellFormedKey(SplitLine(line).value.0) && WellFormedValue(SplitLine(line).value.1)
  {
    var kv := SplitLine(line).value;
    StripAvoids(line, LineBreaks);
    LineParts(kv.0, kv.1, LineBreaks);
    LineEnds(kv.0, kv.1);
  }

  /** Whatever the file holds, the dictionary read from its lines is well formed. */
  lemma {:induction false} ParsedWellFormed(lines: seq<string>)
    requires forall i :: 0 <= i < |lines| ==> Avoids(lines[i], LineBreaks)
    ensures WellFormedEnv(ParseLines(lines))
    decreases |lines|
  {
    if lines != [] {
      var init := lines[..|lines| - 1];
      var line := lines[|lines| - 1];
      ParsedWellFormed(init);
      match SplitLine(line)
      case None =>
      case Some(kv) =>
        SplitLineWellFormed(line);
        PutWellFormed(ParseLines(init), kv.0, kv.1);
    }
  }

  // ----- Writing and reading back -----

  /** The lines `key=value` the write loop produces, without their terminators. */
  function WrittenLines(e: Env): seq<string> {
    seq(|e|, i requires 0 <= i < |e| => e[i].0 + "=" + e[i].1)
  }

  /** A line splits uniquely at its first '='. */
  lemma SplitUnique(a: string, b: string, c: string, d: string)
    requires '=' !in a && '=' !in c && a + "=" + b == c + "=" + d
    ensures a == c && b == d
  {
    var s := a + "=" + b;
    assert s[|a|] == '=' && s[|c|] == '=';
    assert |a| == |c|;
    assert a == s[..|a|] && c == s[..|c|];
    assert b == s[|a| + 1..] && d == s[|c| + 1..];
  }

  /** One written line splits off as the line `key=value`. */
  lemma EntryLineSplits(entry: (string, string), rest: string)
    requires Avoids(entry.0, LineBreaks) && Avoids(entry.1, LineBreaks)
    ensures Lines(EntryLine(entry) + rest) == [entry.0 + "=" + entry.1] + Lines(rest)
  {
    var text := entry.0 + "=" + entry.1;
    AvoidsConcat(entry.0, "=", LineBreaks);
    AvoidsConcat(entry.0 + "=", entry.1, LineBreaks);
    assert EntryLine(entry) + rest == text + ['\n'] + rest;
    SplitOnFirst(text, '\n', rest, LineBreaks);
  }

  /** The written text splits into the written lines, one per entry. */
  lemma {:induction false} SerializeLines(e: Env, rest: string)
    requires forall i :: 0 <= i < |e| ==> Avoids(e[i].0, LineBreaks) && Avoids(e[i].1, LineBreaks)
    ensures Lines(Serialize(e) + rest) == WrittenLines(e) + Lines(rest)
    decreases |e|
  {
    if e == [] {
      assert Serialize(e) + rest == rest;
    } else {
      var init, last := e[..|e| - 1], e[|e| - 1];
      assert Serialize(e) + rest == Serialize(init) + (EntryLine(last) + rest);
      SerializeLines(init, EntryLine(last) + rest);
      EntryLineSplits(last, rest);
      assert WrittenLines(init) + [last.0 + "=" + last.1] == WrittenLines(e);
    }
  }

  /** A written line `key=value` reads back as its key and the value without trailing
      whitespace: the strip sees the key's first character (or the '=') in front. */
  lemma SplitLineTrailing(k: string, v: string)
    requires '=' !in k && (k == [] || !IsSpace(k[0]))
    ensures SplitLine(k + "=" + v) == Some((k, TrimEnd(v)))
  {
    var text := k + "=" + v;
    assert text[|k|] == '=';
    assert text[0] == if k == [] then '=' else k[0];
    assert TrimStart(text) == text;
    assert text == (k + "=") + v;
    TrimEndAfter(k + "=", v);
    var kv := SplitLine(text).value;
    SplitUnique(kv.0, kv.1, k, TrimEnd(v));
  }

  /** A written line `key=value` of a well-formed key and value reads back as that pair. */
  lemma SplitWrittenLine(k: string, v: string)
    requires WellFormedKey(k) && WellFormedValue(v)
    ensures SplitLine(k + "=" + v) == Some((k, v))
  {
    SplitLineTrailing(k, v);
    assert TrimEnd(v) == v;
  }

  /** Without its last entry a well-formed dictionary stays well formed and lacks the last key. */
  lemma DropLast(e: Env)
    requires WellFormedEnv(e) && e != []
    ensures WellFormedEnv(e[..|e| - 1]) && e[|e| - 1].0 !in Keys(e[..|e| - 1])
    ensures e[..|e| - 1] + [e[|e| - 1]] == e
  {
    var init := e[..|e| - 1];
    assert Keys(init) == Keys(e)[..|e| - 1];
    forall j | 0 <= j < |init| ensures Keys(init)[j] != e[|e| - 1].0 {
      assert Keys(e)[j] != Keys(e)[|e| - 1];
    }
    assert init + [e[|e| - 1]] == e;
  }

  /** The written lines of a dictionary are those of all but its last entry, then the last. */
  lemma WrittenLinesDropLast(e: Env)
    requires e != []
    ensures var w := WrittenLines(e);
      && w[..|w| - 1] == WrittenLines(e[..|e| - 1])
      && w[|w| - 1] == e[|e| - 1].0 + "=" + e[|e| - 1].1
  {
  }

  /** Reading one written line for a new key appends its entry. */
  lemma ReadWrittenLine(init: Env, last: (string, string))
    requires Distinct(Keys(init)) && last.0 !in Keys(init)
    requires WellFormedKey(last.0) && WellFormedValue(last.1)
    ensures ReadLine(init, last.0 + "=" + last.1) == init + [last]
  {
    SplitWrittenLine(last.0, last.1);
  }

  /** Reading the written lines of a well-formed dictionary gives the dictionary back. */
  lemma {:induction false} ReadWritten(e: Env)
    requires WellFormedEnv(e)
    ensures ParseLines(WrittenLines(e)) == e
    decreases |e|
  {
    if e != [] {
      var init, last := e[..|e| - 1], e[|e| - 1];
      var w := WrittenLines(e);
      DropLast(e);
      ReadWritten(init);
      WrittenLinesDropLast(e);
      ReadWrittenLine(init, last);
      assert ParseLines(w) == ReadLine(ParseLines(w[..|w| - 1]), w[|w| - 1]);
    }
  }

  /** A written text reads back as its written lines do. */
  lemma ParseSerialized(e: Env)
    requires forall i :: 0 <= i < |e| ==> Avoids(e[i].0, LineBreaks) && Avoids(e[i].1, LineBreaks)
    ensures ParseFile(Some(Serialize(e))) == ParseLines(WrittenLines(e))
  {
    SerializeLines(e, "");
    assert Serialize(e) + "" == Serialize(e);
    var w := WrittenLines(e);
    assert (w + [""])[..|w|] == w;
  }

  /** Round trip: writing a well-formed dictionary and reading the file back gives the dictionary. */
  lemma RoundTrip(e: Env)
    requires WellFormedEnv(e)
    ensures ParseFile(Some(Serialize(e))) == e
  {
    ParseSerialized(e);
    ReadWritten(e);
  }

  // ----- The update -----

  /** The dictionary `update_env_file` writes, shown well formed and read back from the
      written file unchanged. */
  lemma UpdatedEnvReadsBack(file: Option<string>, token: string)
    requires WellFormedValue(token)
    ensures WellFormedEnv(UpdatedEnv(file, token))
    ensures ParseFile(Some(Merge(file, token))) == UpdatedEnv(file, token)
  {
    UpdatedEnvReadsBackTrimmed(file, token);
    assert TrimEnd(token) == token;
    ParsedWellFormed(FileLines(file));
    RefreshTokenKeyWellFormed();
    PutWellFormed(ParseFile(file), RefreshTokenKey, token);
  }

  /** What the file holds after `update_env_file` with a refresh token `token` that has no
      line break and does not end in whitespace: the refresh-token key maps to `token`,
      every other key to its value on its last line in the old file, no key holds an '=',
      and the keys are those of the old file plus the refresh-token key. */
  lemma UpdateContents(file: Option<string>, token: string)
    requires WellFormedValue(token)
    ensures var after := ParseFile(Some(Merge(file, token)));
      && Lookup(after, RefreshTokenKey) == Some(token)
      && (forall k :: k != RefreshTokenKey ==> Lookup(after, k) == LastValue(FileLines(file), k))
      && (forall k :: k in Keys(after) <==> k == RefreshTokenKey || LastValue(FileLines(file), k).Some?)
      && (forall k :: k in Keys(after) ==> '=' !in k)
  {
    UpdatedEnvReadsBack(file, token);
    var after := UpdatedEnv(file, token);
    forall k ensures Lookup(after, k) == if k == RefreshTokenKey then Some(token) else LastValue(FileLines(file), k) {
      LookupUpdated(file, token, k);
    }
    forall k ensures k in Keys(after) <==> k == RefreshTokenKey || LastValue(FileLines(file), k).Some? {
      LookupFound(after, k);
      LookupUpdated(file, token, k);
    }
    forall k | k in Keys(after) ensures '=' !in k {
      var i :| 0 <= i < |after| && Keys(after)[i] == k;
    }
  }

  /** A key of the dictionary `update_env_file` writes gives the token, or its value on its
      last line in the old file. */
  lemma LookupUpdated(file: Option<string>, token: string, k: string)
    ensures Lookup(UpdatedEnv(file, token), k) == if k == RefreshTokenKey then Some(token) else LastValue(FileLines(file), k)
  {
    LookupPut(ParseFile(file), RefreshTokenKey, token, k);
    ParseLookup(FileLines(file), k);
  }

  /** Lines that read alike build the same dictionary. */
  lemma {:induction false} ParseLinesAlike(ls1: seq<string>, ls2: seq<string>)
    requires |ls1| == |ls2| && forall i :: 0 <= i < |ls1| ==> SplitLine(ls1[i]) == SplitLine(ls2[i])
    ensures ParseLines(ls1) == ParseLines(ls2)
    decreases |ls1|
  {
    if ls1 != [] {
      ParseLinesAlike(ls1[..|ls1| - 1], ls2[..|ls2| - 1]);
    }
  }

  /** An entry, or the entry of key `k` with `token`, as a line reads like the same entry
      with `token` trimmed at the end. */
  lemma EntryLinesAlike(x1: (string, string), x2: (string, string), k: string, token: string)
    requires '=' !in k && (k == [] || !IsSpace(k[0]))
    requires x1 == x2 || (x1 == (k, token) && x2 == (k, TrimEnd(token)))
    ensures SplitLine(x1.0 + "=" + x1.1) == SplitLine(x2.0 + "=" + x2.1)
  {
    if x1 != x2 {
      SplitLineTrailing(k, token);
      SplitLineTrailing(k, TrimEnd(token));
      assert TrimEnd(TrimEnd(token)) == TrimEnd(token);
    }
  }

  /** The lines written after assigning `token` to key `k` read like those written after
      assigning `token` without its trailing whitespace. */
  lemma WrittenLinesAlike(e: Env, k: string, token: string)
    requires Distinct(Keys(e)) && '=' !in k && (k == [] || !IsSpace(k[0]))
    ensures var w1, w2 := WrittenLines(Put(e, k, token)), WrittenLines(Put(e, k, TrimEnd(token)));
      |w1| == |w2| && forall i :: 0 <= i < |w1| ==> SplitLine(w1[i]) == SplitLine(w2[i])
  {
    var r1, r2 := Put(e, k, token), Put(e, k, TrimEnd(token));
    PutAlike(e, k, token, TrimEnd(token));
    forall i | 0 <= i < |r1|
      ensures SplitLine(WrittenLines(r1)[i]) == SplitLine(WrittenLines(r2)[i])
    {
      EntryLinesAlike(r1[i], r2[i], k, token);
    }
  }

  /** Assigning a refresh token without line breaks to a well-formed dictionary: every entry
      avoids line breaks, and with the token trimmed at the end the result is well formed. */
  lemma PutTokenWellFormed(e: Env, token: string)
    requires WellFormedEnv(e) && Avoids(token, LineBreaks)
    ensures var r := Put(e, RefreshTokenKey, token);
      forall i :: 0 <= i < |r| ==> Avoids(r[i].0, LineBreaks) && Avoids(r[i].1, LineBreaks)
    ensures WellFormedEnv(Put(e, RefreshTokenKey, TrimEnd(token)))
  {
    AvoidsSlice(token, 0, |TrimEnd(token)|, LineBreaks);
    RefreshTokenKeyWellFormed();
    PutWellFormed(e, RefreshTokenKey, TrimEnd(token));
    PutAlike(e, RefreshTokenKey, token, TrimEnd(token));
  }

  /** Written after assigning a refresh token without line breaks, a well-formed dictionary
      reads back with the token trimmed at the end. */
  lemma PutTokenReadsBack(e: Env, token: string)
    requires WellFormedEnv(e) && Avoids(token, LineBreaks)
    ensures ParseFile(Some(Serialize(Put(e, RefreshTokenKey, token)))) == Put(e, RefreshTokenKey, TrimEnd(token))
  {
    var r1, r2 := Put(e, RefreshTokenKey, token), Put(e, RefreshTokenKey, TrimEnd(token));
    PutTokenWellFormed(e, token);
    ParseSerialized(r1);
    RefreshTokenKeyWellFormed();
    WrittenLinesAlike(e, RefreshTokenKey, token);
    ParseLinesAlike(WrittenLines(r1), WrittenLines(r2));
    ReadWritten(r2);
  }

  /** For a refresh token without line breaks, the updated file reads back as the dictionary
      that holds the token without its trailing whitespace. */
  lemma UpdatedEnvReadsBackTrimmed(file: Option<string>, token: string)
    requires Avoids(token, LineBreaks)
    ensures ParseFile(Some(Merge(file, token))) == UpdatedEnv(file, TrimEnd(token))
  {
    ParsedWellFormed(FileLines(file));
    PutTokenReadsBack(ParseFile(file), token);
  }

  /** Idempotence: for a refresh token without line breaks, updating the file a second time
      with the same token writes the same text as updating it once. A token that ends in
      whitespace reads back trimmed, and the second assignment puts it back as it was. */
  lemma UpdateIdempotent(file: Option<string>, token: string)
    requires Avoids(token, LineBreaks)
    ensures Merge(Some(Merge(file, token)), token) == Merge(file, token)
  {
    UpdatedEnvReadsBackTrimmed(file, token);
    PutPut(ParseFile(file), RefreshTokenKey, TrimEnd(token), token);
  }

  /** Only the first '=' of a line separates key from value: `A=b=c` gives key `A`, value `b=c`. */
  lemma ValueMayHoldEquals()
    ensures SplitLine("A=b=c") == Some(("A", "b=c"))
  {
    assert "A" + "=" + "b=c" == "A=b=c";
    SplitWrittenLine("A", "b=c");
  }
}
