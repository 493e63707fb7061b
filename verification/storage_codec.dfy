/** The storage file format. Writing concatenates `key=value` for every entry in insertion
    order with nothing in between; reading opens the file in text mode (universal newlines),
    takes its lines with their line endings, and splits each line at its first `=`. */
module StorageCodec {
  import opened Wrappers
  import opened Entries

  /** Text that contains no line break of any kind text-mode reading recognises. */
  predicate NoLineBreak(s: string) {
    '\n' !in s && '\r' !in s
  }

  /** Index of the first `c` in `s`, if any. */
  function Find(s: string, c: char): (r: Option<nat>)
    ensures r.None? <==> c !in s
    ensures r.Some? ==> r.value < |s| && s[r.value] == c && c !in s[..r.value]
  {
    if |s| == 0 then None
    else if s[0] == c then Some(0)
    else match Find(s[1..], c)
      case None => None
      case Some(i) =>
        assert s[..i + 1] == [s[0]] + s[1..][..i];
        Some(i + 1)
  }

  // ---------------------------------------------------------------------------------------
  // Writing

  /** One record as the f-string `f"{key}={value}"` renders it: the key, one `=`, the value. */
  function Record(e: Entry): (r: string)
    ensures |r| == |e.key| + 1 + |e.value|
    ensures r[..|e.key|] == e.key && r[|e.key|] == '=' && r[|e.key| + 1..] == e.value
  {
    e.key + "=" + e.value
  }

  /** The file content `_write_to_storage` produces: every record in insertion order, with no
      separator and no trailing newline. */
  function Serialize(t: Table): (r: string)
    ensures |r| == 0 <==> |t| == 0
    ensures (forall i :: 0 <= i < |t| ==> NoLineBreak(t[i].key) && NoLineBreak(t[i].value)) ==> NoLineBreak(r)
  {
    if |t| == 0 then ""
    else
      var rest := Serialize(t[1..]);
      assert forall i :: 0 <= i < |t[1..]| ==> t[1..][i] == t[i + 1];
      Record(t[0]) + rest
  }

  /** The file is the records of the entries written one after another, in insertion order. */
  lemma {:induction false} SerializeAppend(t: Table, e: Entry)
    ensures Serialize(t + [e]) == Serialize(t) + Record(e)
  {
    if |t| == 0 {
      assert [e][1..] == [];
      assert Serialize([e]) == Record(e) + "";
    } else {
      assert (t + [e])[1..] == t[1..] + [e];
      SerializeAppend(t[1..], e);
      assert Serialize(t + [e]) == Record(t[0]) + (Serialize(t[1..]) + Record(e));
    }
  }

  // ---------------------------------------------------------------------------------------
  // Reading

  /** Text-mode decoding: `\r\n` and a lone `\r` both become `\n`. */
  function TranslateNewlines(s: string): (r: string)
    ensures '\r' !in r
    ensures '\r' !in s ==> r == s
    ensures |r| <= |s|
  {
    if |s| == 0 then ""
    else if s[0] == '\r' then
      if |s| > 1 && s[1] == '\n' then "\n" + TranslateNewlines(s[2..])
      else "\n" + TranslateNewlines(s[1..])
    else
      assert s == [s[0]] + s[1..];
      [s[0]] + TranslateNewlines(s[1..])
  }

  /** Text free of `\r` passes through decoding unchanged in front of whatever follows it. */
  lemma {:induction false} TranslatePlainPrefix(a: string, b: string)
    requires '\r' !in a
    ensures TranslateNewlines(a + b) == a + TranslateNewlines(b)
  {
    if |a| > 0 {
      assert (a + b)[0] == a[0] && (a + b)[1..] == a[1..] + b;
      TranslatePlainPrefix(a[1..], b);
      assert a == [a[0]] + a[1..];
    } else {
      assert a + b == b;
    }
  }

  /** A Windows line ending `\r\n` decodes to a single `\n`. */
  lemma TranslateCRLF(a: string, b: string)
    requires '\r' !in a
    ensures TranslateNewlines(a + "\r\n" + b) == a + "\n" + TranslateNewlines(b)
  {
    var s := "\r\n" + b;
    assert s[0] == '\r' && s[1] == '\n' && s[2..] == b;
    assert a + "\r\n" + b == a + s;
    TranslatePlainPrefix(a, s);
  }

  /** A lone `\r`, one not followed by `\n`, decodes to a single `\n` too. */
  lemma TranslateLoneCR(a: string, b: string)
    requires '\r' !in a
    requires |b| == 0 || b[0] != '\n'
    ensures TranslateNewlines(a + "\r" + b) == a + "\n" + TranslateNewlines(b)
  {
    var s := "\r" + b;
    assert s[0] == '\r' && s[1..] == b;
    assert a + "\r" + b == a + s;
    TranslatePlainPrefix(a, s);
  }

  /** The lines put back together. */
  function Concat(lines: seq<string>): string {
    if |lines| == 0 then "" else lines[0] + Concat(lines[1..])
  }

  /** Length of the first line of non-empty `s`, its line ending included. */
  function FirstLineLength(s: string): (n: nat)
    requires |s| > 0
    ensures 0 < n <= |s|
    ensures '\n' !in s[..n - 1]
    ensures n < |s| ==> s[n - 1] == '\n'
  {
    match Find(s, '\n')
    case None => |s|
    case Some(i) => i + 1
  }

  /** `f.readlines()` on decoded text: the pieces ending just after each `\n`, plus the
      unterminated remainder if there is one. */
  function ReadLines(s: string): (lines: seq<string>)
    ensures Concat(lines) == s
    ensures forall i :: 0 <= i < |lines| ==> |lines[i]| > 0
    ensures forall i :: 0 <= i < |lines| ==> '\n' !in lines[i][..|lines[i]| - 1]
    ensures forall i :: 0 <= i < |lines| - 1 ==> lines[i][|lines[i]| - 1] == '\n'
    decreases |s|
  {
    if |s| == 0 then []
    else
      var n := FirstLineLength(s);
      var rest := ReadLines(s[n..]);
      LinesCons(s, n, rest);
      [s[..n]] + rest
  }

  /** The first line of `s` followed by the lines of the remainder form the lines of `s`. */
  lemma LinesCons(s: string, n: nat, rest: seq<string>)
    requires 0 < n <= |s|
    requires '\n' !in s[..n - 1]
    requires n < |s| ==> s[n - 1] == '\n'
    requires Concat(rest) == s[n..]
    requires |rest| > 0 <==> n < |s|
    requires forall i :: 0 <= i < |rest| ==> |rest[i]| > 0
    requires forall i :: 0 <= i < |rest| ==> '\n' !in rest[i][..|rest[i]| - 1]
    requires forall i :: 0 <= i < |rest| - 1 ==> rest[i][|rest[i]| - 1] == '\n'
    ensures var lines := [s[..n]] + rest;
      && Concat(lines) == s
      && (forall i :: 0 <= i < |lines| ==> |lines[i]| > 0)
      && (forall i :: 0 <= i < |lines| ==> '\n' !in lines[i][..|lines[i]| - 1])
      && (forall i :: 0 <= i < |lines| - 1 ==> lines[i][|lines[i]| - 1] == '\n')
  {
    var lines := [s[..n]] + rest;
    assert lines[1..] == rest;
    assert s[..n] + s[n..] == s;
    assert forall i :: 1 <= i < |lines| ==> lines[i] == rest[i - 1];
  }

  /** `line.partition("=")` reduced to its first and last parts: the text before the first `=`
      and the text after it, or the whole line and `""` when there is no `=`. */
  function Partition(line: string): (r: (string, string))
    ensures '=' !in line ==> r == (line, "")
    ensures '=' in line ==> r.0 + "=" + r.1 == line && '=' !in r.0
  {
    match Find(line, '=')
    case None => (line, "")
    case Some(i) =>
      assert line[..i] + "=" + line[i + 1..] == line;
      (line[..i], line[i + 1..])
  }

  /** The loop body of `_init_storage` run over `lines`: each line's key is set to its value,
      so a later line overwrites an earlier one with the same key. */
  function Load(t: Table, lines: seq<string>): (r: Table)
    ensures Keys(r) == Keys(t) + LineKeys(lines)
    decreases |lines|
  {
    if |lines| == 0 then
      assert LineKeys(lines) == {};
      t
    else
      var kv := Partition(lines[0]);
      var r := Load(Set(t, kv.0, kv.1), lines[1..]);
      LineKeysCons(lines);
      r
  }

  /** The keys the lines carry: the text before each line's first `=`. */
  function LineKeys(lines: seq<string>): set<string> {
    set i | 0 <= i < |lines| :: Partition(lines[i]).0
  }

  /** The keys of some lines are the first line's key and the keys of the rest. */
  lemma LineKeysCons(lines: seq<string>)
    requires |lines| > 0
    ensures LineKeys(lines) == {Partition(lines[0]).0} + LineKeys(lines[1..])
  {
    forall x | x in LineKeys(lines)
      ensures x in {Partition(lines[0]).0} + LineKeys(lines[1..])
    {
      var i :| 0 <= i < |lines| && Partition(lines[i]).0 == x;
      if i > 0 {
        assert lines[1..][i - 1] == lines[i];
      }
    }
    forall x | x in LineKeys(lines[1..])
      ensures x in LineKeys(lines)
    {
      var i :| 0 <= i < |lines[1..]| && Partition(lines[1..][i]).0 == x;
      assert lines[i + 1] == lines[1..][i];
    }
  }

  /** The store read back from file text: one entry per distinct key on its lines, so empty text
      gives an empty store. */
  function Parse(text: string): (r: Table)
    ensures Keys(r) == LineKeys(ReadLines(TranslateNewlines(text)))
    ensures UniqueKeys(r)
    ensures |text| == 0 ==> r == []
  {
    var lines := ReadLines(TranslateNewlines(text));
    LoadUnique([], lines);
    assert Keys([]) == {};
    assert |text| == 0 ==> lines == [];
    Load([], lines)
  }

  /** The store `_init_storage` loads: empty when there is no file. */
  function ParseFile(file: Option<string>): (t: Table)
    ensures file.None? ==> t == []
    ensures UniqueKeys(t)
  {
    match file
    case None => []
    case Some(text) => Parse(text)
  }

  /** The value the last line carrying key `k` gives it, if any line does. */
  function LastValue(lines: seq<string>, k: string): Option<string>
    decreases |lines|
  {
    if |lines| == 0 then None
    else
      var kv := Partition(lines[|lines| - 1]);
      if kv.0 == k then Some(kv.1) else LastValue(lines[..|lines| - 1], k)
  }

  // ---------------------------------------------------------------------------------------
  // Properties of reading

  /** Loading lines into a store with unique keys keeps them unique. */
  lemma {:induction false} LoadUnique(t: Table, lines: seq<string>)
    requires UniqueKeys(t)
    ensures UniqueKeys(Load(t, lines))
    decreases |lines|
  {
    if |lines| > 0 {
      var kv := Partition(lines[0]);
      SetUnique(t, kv.0, kv.1);
      LoadUnique(Set(t, kv.0, kv.1), lines[1..]);
    }
  }

  /** Loading `lines` on top of `t`: a key reads as the last line that carries it, and keys no
      line carries read as in `t`. */
  lemma {:induction false} GetLoad(t: Table, lines: seq<string>, k: string)
    ensures Get(Load(t, lines), k) == if LastValue(lines, k).Some? then LastValue(lines, k) else Get(t, k)
    decreases |lines|
  {
    if |lines| > 0 {
      var kv := Partition(lines[0]);
      GetLoad(Set(t, kv.0, kv.1), lines[1..], k);
      GetSet(t, kv.0, kv.1, k);
      LastValueCons(lines, k);
    }
  }

  /** `LastValue` scanned from the front: the rest of the lines win over the first one. */
  lemma {:induction false} LastValueCons(lines: seq<string>, k: string)
    requires |lines| > 0
    ensures LastValue(lines, k) ==
      if LastValue(lines[1..], k).Some? then LastValue(lines[1..], k)
      else if Partition(lines[0]).0 == k then Some(Partition(lines[0]).1)
      else None
    decreases |lines|
  {
    if |lines| > 1 {
      var last := lines[|lines| - 1];
      assert lines[1..][|lines[1..]| - 1] == last;
      assert lines[1..][..|lines[1..]| - 1] == lines[..|lines| - 1][1..];
      if Partition(last).0 != k {
        LastValueCons(lines[..|lines| - 1], k);
      }
    }
  }

  /** Reading a file: every key reads as the value on the last line that carries it, and a key
      on no line is absent; whatever the store held before plays no part. */
  lemma ParseReadsLastLine(text: string, k: string)
    ensures Get(Parse(text), k) == LastValue(ReadLines(TranslateNewlines(text)), k)
  {
    GetLoad([], ReadLines(TranslateNewlines(text)), k);
  }

  /** Text without a line break is a single line. */
  lemma OneLine(s: string)
    requires |s| > 0 && '\n' !in s
    ensures ReadLines(s) == [s]
  {
    var n := FirstLineLength(s);
    assert n == |s|;
    assert s[..n] == s;
    assert ReadLines(s[n..]) == [];
  }

  /** A single `key=value` line with no `=` in the key and no line break reads back as exactly
      that one entry; the value keeps every character, `=` included. */
  lemma ParseRecord(k: string, v: string)
    requires '=' !in k && NoLineBreak(k) && NoLineBreak(v)
    ensures Parse(k + "=" + v) == [Entry(k, v)]
  {
    var line := k + "=" + v;
    assert NoLineBreak(line);
    assert TranslateNewlines(line) == line;
    OneLine(line);
    PartitionRecord(k, v);
    assert Load([], [line]) == Load(Set([], k, v), []);
  }

  /** `partition` finds the `=` written between a key free of `=` and its value. */
  lemma PartitionRecord(k: string, v: string)
    requires '=' !in k
    ensures Partition(k + "=" + v) == (k, v)
  {
    var line := k + "=" + v;
    assert line[|k|] == '=';
    var i := Find(line, '=').value;
    assert line[..|k|] == k;
    assert line[|k| + 1..] == v;
  }

  /** The single-entry round trip: writing a store of one entry and reading the file back gives
      the same store, provided the key holds no `=` and neither part holds a line break. */
  lemma SingleEntryRoundTrip(k: string, v: string)
    requires '=' !in k && NoLineBreak(k) && NoLineBreak(v)
    ensures Parse(Serialize([Entry(k, v)])) == [Entry(k, v)]
  {
    assert Serialize([Entry(k, v)]) == k + "=" + v + "" by {
      assert [Entry(k, v)][1..] == [];
    }
    assert k + "=" + v + "" == k + "=" + v;
    ParseRecord(k, v);
  }

  /** Several entries do not survive the round trip: with no separator between records, the
      whole file is one line, so it reads back as the first key mapped to everything after its
      `=`, the other records included. */
  lemma MultiEntryCollapse(t: Table)
    requires |t| > 0
    requires '=' !in t[0].key
    requires forall i :: 0 <= i < |t| ==> NoLineBreak(t[i].key) && NoLineBreak(t[i].value)
    ensures Parse(Serialize(t)) == [Entry(t[0].key, t[0].value + Serialize(t[1..]))]
  {
    var v := t[0].value + Serialize(t[1..]);
    SerializeTail(t);
    SerializeCons(t);
    ParseRecord(t[0].key, v);
  }

  /** The file starts with the first record, whose value runs on into the rest of the file. */
  lemma SerializeCons(t: Table)
    requires |t| > 0
    ensures Serialize(t) == t[0].key + "=" + (t[0].value + Serialize(t[1..]))
  {
  }

  /** The first value followed by the remaining records holds no line break when no part does. */
  lemma SerializeTail(t: Table)
    requires |t| > 0
    requires forall i :: 0 <= i < |t| ==> NoLineBreak(t[i].key) && NoLineBreak(t[i].value)
    ensures NoLineBreak(t[0].value + Serialize(t[1..]))
  {
    assert forall i :: 0 <= i < |t[1..]| ==> t[1..][i] == t[i + 1];
  }
}
