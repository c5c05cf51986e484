/** `normalize_and_send_to_syslog`'s message construction: a record becomes
    one line of `key=value` pairs separated by single spaces. */
module Normalizer {
  import opened Common
  import opened Json
  import opened Decimal

  /** The text `f"{value}"` yields after the loop has replaced a list or dict
      value by `json.dumps(value)`. `dumps` stands for `json.dumps`, whose
      output this model does not fix. */
  function Render(v: Value, dumps: Value -> string): (t: string)
    ensures v.List? || v.Dict? ==> t == dumps(v)
    ensures v.Str? ==> t == v.s
    ensures v.Int? ==> Canonical(t) && ParseInt(t) == Some(v.i)
    ensures v.Null? ==> t == "None"
    ensures v.Bool? ==> t == (if v.b then "True" else "False")
  {
    match v
    case List(_) => dumps(v)
    case Dict(_) => dumps(v)
    case Str(s) => s
    case Int(i) => ParseIntToString(i); IntToString(i)
    case Bool(b) => if b then "True" else "False"
    case Null => "None"
  }

  /** The text `f"{key}={value}"` for one field. */
  function Pair(f: Field, dumps: Value -> string): string {
    f.key + "=" + Render(f.value, dumps)
  }

  /** The list `syslog_message_parts` the loop builds: one pair per field, in field order. */
  function Parts(r: Record, dumps: Value -> string): (ps: seq<string>)
    ensures |ps| == |r|
    ensures forall k :: 0 <= k < |ps| ==> |ps[k]| > 0
  {
    seq(|r|, i requires 0 <= i < |r| => Pair(r[i], dumps))
  }

  /** `sep.join(parts)`. */
  function Join(parts: seq<string>, sep: char): string
    decreases |parts|
  {
    if |parts| == 0 then ""
    else if |parts| == 1 then parts[0]
    else parts[0] + [sep] + Join(parts[1..], sep)
  }

  /** Where the `i`-th part starts in the joined text: the parts before it,
      each followed by one separator. */
  function Offset(parts: seq<string>, i: nat): nat
    requires i <= |parts|
    decreases i
  {
    if i == 0 then 0 else |parts[0]| + 1 + Offset(parts[1..], i - 1)
  }

  /** `line` is `parts` laid end to end with one `sep` between neighbours:
      every part sits at its offset, a separator follows each part but the
      last, and the last part ends the line. */
  predicate Laid(line: string, parts: seq<string>, sep: char) {
    && (|parts| == 0 ==> line == [])
    && forall i :: 0 <= i < |parts| ==>
         && Offset(parts, i) + |parts[i]| <= |line|
         && line[Offset(parts, i)..Offset(parts, i) + |parts[i]|] == parts[i]
         && (i < |parts| - 1 ==>
               Offset(parts, i) + |parts[i]| < |line| && line[Offset(parts, i) + |parts[i]|] == sep)
         && (i == |parts| - 1 ==> Offset(parts, i) + |parts[i]| == |line|)
  }

  /** The line that is logged for a record: each field's `key=value` text at
      its offset, in field order, separated by single spaces, whatever the
      keys and values contain. */
  function Normalize(r: Record, dumps: Value -> string): (line: string)
    ensures |r| == 0 <==> line == []
    ensures Laid(line, Parts(r, dumps), ' ')
  {
    JoinLaid(Parts(r, dumps), ' ');
    JoinEmpty(Parts(r, dumps), ' ');
    Join(Parts(r, dumps), ' ')
  }

  /** The joined text is exactly its parts laid out with separators. */
  lemma {:induction false} JoinLaid(parts: seq<string>, sep: char)
    ensures Laid(Join(parts, sep), parts, sep)
  {
    forall i | 0 <= i < |parts|
      ensures Offset(parts, i) + |parts[i]| <= |Join(parts, sep)|
      ensures Join(parts, sep)[Offset(parts, i)..Offset(parts, i) + |parts[i]|] == parts[i]
      ensures i < |parts| - 1 ==>
        Offset(parts, i) + |parts[i]| < |Join(parts, sep)| && Join(parts, sep)[Offset(parts, i) + |parts[i]|] == sep
      ensures i == |parts| - 1 ==> Offset(parts, i) + |parts[i]| == |Join(parts, sep)|
    {
      JoinAt(parts, sep, i);
    }
  }

  /** One part of a joined text, and what follows it. */
  lemma {:induction false} JoinAt(parts: seq<string>, sep: char, i: nat)
    requires i < |parts|
    ensures Offset(parts, i) + |parts[i]| <= |Join(parts, sep)|
    ensures Join(parts, sep)[Offset(parts, i)..Offset(parts, i) + |parts[i]|] == parts[i]
    ensures i < |parts| - 1 ==>
      Offset(parts, i) + |parts[i]| < |Join(parts, sep)| && Join(parts, sep)[Offset(parts, i) + |parts[i]|] == sep
    ensures i == |parts| - 1 ==> Offset(parts, i) + |parts[i]| == |Join(parts, sep)|
    decreases i
  {
    if |parts| > 1 {
      var h := |parts[0]| + 1;
      var rest := Join(parts[1..], sep);
      var line := parts[0] + [sep] + rest;
      assert Join(parts, sep) == line;
      if i == 0 {
        assert line[..|parts[0]|] == parts[0];
      } else {
        JoinAt(parts[1..], sep, i - 1);
        JoinShift(parts[0], sep, rest, Offset(parts[1..], i - 1), |parts[i]|);
        assert parts[1..][i - 1] == parts[i];
      }
    }
  }

  /** A slice of the tail of `head + [sep] + rest` is the same slice of `rest`. */
  lemma JoinShift(head: string, sep: char, rest: string, o: nat, n: nat)
    requires o + n <= |rest|
    ensures (head + [sep] + rest)[|head| + 1 + o..|head| + 1 + o + n] == rest[o..o + n]
    ensures o + n < |rest| ==> (head + [sep] + rest)[|head| + 1 + o + n] == rest[o + n]
  {
  }

  /** Only an empty list of non-empty parts joins to the empty text; every
      `key=value` part holds at least the `=`. */
  lemma JoinEmpty(parts: seq<string>, sep: char)
    requires forall k :: 0 <= k < |parts| ==> |parts[k]| > 0
    ensures |parts| == 0 <==> Join(parts, sep) == []
  {
    if |parts| > 0 {
      JoinAt(parts, sep, 0);
    }
  }

  /** Position of the first `c` in `s`. */
  function FirstIndex(s: string, c: char): (i: nat)
    requires c in s
    ensures i < |s| && s[i] == c && c !in s[..i]
    decreases |s|
  {
    if s[0] == c then 0
    else
      var j := FirstIndex(s[1..], c);
      assert s[..j + 1] == [s[0]] + s[1..][..j];
      j + 1
  }

  /** `s.split(sep)` for a single-character separator. */
  function Split(s: string, sep: char): (parts: seq<string>)
    ensures |parts| > 0
    ensures forall k :: 0 <= k < |parts| ==> sep !in parts[k]
    decreases |s|
  {
    if sep in s then
      var i := FirstIndex(s, sep);
      [s[..i]] + Split(s[i + 1..], sep)
    else [s]
  }

  /** `p.partition("=")` without the separator: the key before the first `=`
      and the text after it. */
  function Unpair(p: string): (string, string) {
    if '=' in p then
      var i := FirstIndex(p, '=');
      (p[..i], p[i + 1..])
    else (p, "")
  }

  /** Reads a normalised line back into its key/text pairs. */
  function ParseLine(line: string): seq<(string, string)> {
    var ps := Split(line, ' ');
    seq(|ps|, k requires 0 <= k < |ps| => Unpair(ps[k]))
  }

  /** The first occurrence of a character not in `a` is found at `|a|`. */
  lemma FirstIndexAfter(a: string, c: char, b: string)
    requires c !in a
    ensures c in a + [c] + b && FirstIndex(a + [c] + b, c) == |a|
  {
    var s := a + [c] + b;
    assert s[|a|] == c;
    assert s[..|a|] == a;
  }

  /** Splitting peels off everything before the first separator. */
  lemma SplitFirst(a: string, sep: char, b: string)
    requires sep !in a
    ensures Split(a + [sep] + b, sep) == [a] + Split(b, sep)
  {
    var s := a + [sep] + b;
    FirstIndexAfter(a, sep, b);
    assert s[..|a|] == a;
    assert s[|a| + 1..] == b;
  }

  /** Splitting a joined list gives the list back when no part holds the separator. */
  lemma {:induction false} SplitJoin(parts: seq<string>, sep: char)
    requires |parts| > 0
    requires forall k :: 0 <= k < |parts| ==> sep !in parts[k]
    ensures Split(Join(parts, sep), sep) == parts
    decreases |parts|
  {
    if |parts| > 1 {
      var rest := Join(parts[1..], sep);
      assert Join(parts, sep) == parts[0] + [sep] + rest;
      SplitFirst(parts[0], sep, rest);
      SplitJoin(parts[1..], sep);
      assert parts == [parts[0]] + parts[1..];
    }
  }

  /** The conditions under which a line can be read back unambiguously:
      no key holds a space or `=`, and no rendered value holds a space. */
  predicate Unambiguous(r: Record, dumps: Value -> string) {
    forall i :: 0 <= i < |r| ==>
      ' ' !in r[i].key && '=' !in r[i].key && ' ' !in Render(r[i].value, dumps)
  }

  /** No field is dropped, reordered or altered: the line holds, in record
      order, every key with the text of its value. */
  lemma NormalizeRoundTrip(r: Record, dumps: Value -> string)
    requires |r| > 0 && Unambiguous(r, dumps)
    ensures ParseLine(Normalize(r, dumps)) ==
      seq(|r|, i requires 0 <= i < |r| => (r[i].key, Render(r[i].value, dumps)))
  {
    var ps := Parts(r, dumps);
    forall k | 0 <= k < |ps|
      ensures ' ' !in ps[k]
      ensures Unpair(ps[k]) == (r[k].key, Render(r[k].value, dumps))
    {
      UnpairPair(r[k].key, Render(r[k].value, dumps));
    }
    SplitJoin(ps, ' ');
  }

  /** A pair whose key holds no `=` splits back into its key and text. */
  lemma UnpairPair(key: string, text: string)
    requires '=' !in key
    ensures Unpair(key + "=" + text) == (key, text)
  {
    var p := key + "=" + text;
    FirstIndexAfter(key, '=', text);
    assert p == key + ['='] + text;
    assert p[..|key|] == key;
    assert p[|key| + 1..] == text;
  }

  /** A character occurs in a joined list exactly when it occurs in some part,
      or it is the separator and there are at least two parts. */
  lemma {:induction false} InJoin(parts: seq<string>, sep: char, c: char)
    ensures c in Join(parts, sep) <==>
      (c == sep && |parts| > 1) || exists k :: 0 <= k < |parts| && c in parts[k]
    decreases |parts|
  {
    if |parts| > 1 {
      InJoin(parts[1..], sep, c);
      var j := parts[0] + [sep] + Join(parts[1..], sep);
      assert c in j <==> c in parts[0] || c == sep || c in Join(parts[1..], sep);
      if exists k :: 0 <= k < |parts| && c in parts[k] {
        var k :| 0 <= k < |parts| && c in parts[k];
        if k > 0 {
          assert c in parts[1..][k - 1];
        }
      }
      if exists k :: 0 <= k < |parts[1..]| && c in parts[1..][k] {
        var k :| 0 <= k < |parts[1..]| && c in parts[1..][k];
        assert c in parts[k + 1];
      }
    }
  }

  /** The line spans several physical lines exactly when some key or rendered
      value holds a newline: the code neither escapes nor strips one. */
  lemma NewlineIff(r: Record, dumps: Value -> string)
    ensures '\n' in Normalize(r, dumps) <==>
      exists i :: 0 <= i < |r| && ('\n' in r[i].key || '\n' in Render(r[i].value, dumps))
  {
    var ps := Parts(r, dumps);
    InJoin(ps, ' ', '\n');
    forall i | 0 <= i < |r|
      ensures '\n' in ps[i] <==> '\n' in r[i].key || '\n' in Render(r[i].value, dumps)
    {
      assert ps[i] == r[i].key + "=" + Render(r[i].value, dumps);
    }
  }

  /** The line's length: every pair plus one space between neighbours. */
  lemma {:induction false} JoinLength(parts: seq<string>, sep: char)
    requires |parts| > 0
    ensures |Join(parts, sep)| == SumLengths(parts) + |parts| - 1
    decreases |parts|
  {
    if |parts| > 1 {
      JoinLength(parts[1..], sep);
    }
  }

  function SumLengths(parts: seq<string>): nat
    decreases |parts|
  {
    if |parts| == 0 then 0 else |parts[0]| + SumLengths(parts[1..])
  }
}
