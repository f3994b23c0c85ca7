/** The credentials file reader of server/db.js: the text is split into
    lines, each line is split at '=', and a line with a non-empty key part
    and a non-empty value part stores the trimmed value under the trimmed
    key of a plain JavaScript object. The object is a map here; the file
    read itself is the `text` parameter. */
module Credentials {
  import opened Options
  import opened Strings

  /** What `String.prototype.trim` removes: the JavaScript WhiteSpace and
      LineTerminator characters. */
  const JS_SPACE: set<char> := {
    '\t', '\n', '\U{B}', '\U{C}', '\r', ' ', '\U{A0}', '\U{1680}',
    '\U{2000}', '\U{2001}', '\U{2002}', '\U{2003}', '\U{2004}', '\U{2005}',
    '\U{2006}', '\U{2007}', '\U{2008}', '\U{2009}', '\U{200A}',
    '\U{2028}', '\U{2029}', '\U{202F}', '\U{205F}', '\U{3000}', '\U{FEFF}'}

  /** A line that is stored: the text before its first '=' is not empty,
      and neither is the text from there to the next '=' or the end. */
  predicate Qualifies(line: string) {
    var i := FirstIndex(line, '=');
    0 < i < |line| && FirstIndex(line[i + 1..], '=') > 0
  }

  /** `const [key, value] = line.split("=")`, kept when `key && value`
      (both non-empty: empty text is falsy, a missing part is `undefined`),
      giving `[key.trim(), value.trim()]`. Whatever follows a second '=' is
      dropped. */
  function ParseLine(line: string): (r: Option<(string, string)>)
    ensures r.Some? <==> Qualifies(line)
    ensures r.Some? ==>
      var i := FirstIndex(line, '=');
      var rest := line[i + 1..];
      r.value == (Trim(line[..i], JS_SPACE), Trim(rest[..FirstIndex(rest, '=')], JS_SPACE))
  {
    var parts := Split(line, '=');
    SplitHead(line, '=');
    if '=' in line then
      SplitSecond(line, '=');
      if parts[0] != "" && parts[1] != "" then
        Some((Trim(parts[0], JS_SPACE), Trim(parts[1], JS_SPACE)))
      else None
    else
      SplitNoSeparator(line, '=');
      None
  }

  /** `credentials[key] = value` on a plain object: every key becomes an own
      property except `__proto__`, whose setter ignores a string. */
  function Assign(m: map<string, string>, kv: (string, string)): (m': map<string, string>)
    ensures kv.0 == "__proto__" ==> m' == m
    ensures kv.0 != "__proto__" ==> m' == m[kv.0 := kv.1]
  {
    if kv.0 == "__proto__" then m else m[kv.0 := kv.1]
  }

  /** What each line contributes, in file order. */
  function Entries(lines: seq<string>): (es: seq<Option<(string, string)>>)
    ensures |es| == |lines|
    ensures forall i :: 0 <= i < |lines| ==> es[i] == ParseLine(lines[i])
  {
    seq(|lines|, i requires 0 <= i < |lines| => ParseLine(lines[i]))
  }

  /** The `forEach` over the lines, in order: each stored line assigns. */
  function Apply(es: seq<Option<(string, string)>>): map<string, string>
    decreases |es|
  {
    if |es| == 0 then map[]
    else
      var m := Apply(es[..|es| - 1]);
      match es[|es| - 1]
      case None => m
      case Some(kv) => Assign(m, kv)
  }

  function ParseLines(lines: seq<string>): map<string, string> {
    Apply(Entries(lines))
  }

  /** The credentials object built from the file's text. */
  function ParseCredentials(text: string): map<string, string> {
    ParseLines(Split(text, '\n'))
  }

  /** Entry `i` assigns to `key`. */
  predicate Names(es: seq<Option<(string, string)>>, i: int, key: string) {
    0 <= i < |es| && es[i].Some? && es[i].value.0 == key
  }

  /** The last entry naming `key`, or -1 when none does. */
  function LastNaming(es: seq<Option<(string, string)>>, key: string): (r: int)
    ensures -1 <= r < |es|
    ensures r == -1 <==> forall i :: 0 <= i < |es| ==> !Names(es, i, key)
    ensures r != -1 ==> Names(es, r, key) && forall j :: r < j < |es| ==> !Names(es, j, key)
    decreases |es|
  {
    if |es| == 0 then -1
    else if Names(es, |es| - 1, key) then |es| - 1
    else
      var init := es[..|es| - 1];
      assert forall i :: 0 <= i < |init| ==> (Names(init, i, key) <==> Names(es, i, key));
      LastNaming(init, key)
  }

  /** After the assignments, a key is present exactly when some entry names
      it (and it is not `__proto__`), with the value of the last one. */
  lemma {:induction false} ApplyLast(es: seq<Option<(string, string)>>, key: string)
    ensures key in Apply(es) <==> key != "__proto__" && LastNaming(es, key) != -1
    ensures key in Apply(es) ==> Apply(es)[key] == es[LastNaming(es, key)].value.1
    decreases |es|
  {
    if |es| > 0 {
      var init := es[..|es| - 1];
      ApplyLast(init, key);
      assert forall i :: 0 <= i < |init| ==> (Names(init, i, key) <==> Names(es, i, key));
      if !Names(es, |es| - 1, key) {
        assert LastNaming(es, key) == LastNaming(init, key);
      }
    }
  }

  /** Line `i` is stored and names `key`. */
  ghost predicate AssignsKey(lines: seq<string>, i: int, key: string) {
    0 <= i < |lines| && ParseLine(lines[i]).Some? && ParseLine(lines[i]).value.0 == key
  }

  /** A key is present exactly when some stored line names it (and it is
      not `__proto__`), and its value comes from the last such line: a
      later line overrides an earlier one. */
  lemma ParseLinesSpec(lines: seq<string>, key: string)
    ensures key in ParseLines(lines) <==> key != "__proto__" && exists i :: AssignsKey(lines, i, key)
    ensures key in ParseLines(lines) ==>
      exists i :: && AssignsKey(lines, i, key)
                  && ParseLines(lines)[key] == ParseLine(lines[i]).value.1
                  && forall j :: i < j < |lines| ==> !AssignsKey(lines, j, key)
  {
    var es := Entries(lines);
    ApplyLast(es, key);
    assert forall i :: Names(es, i, key) <==> AssignsKey(lines, i, key);
    if key in ParseLines(lines) {
      assert AssignsKey(lines, LastNaming(es, key), key);
    }
  }

  /** A file written as lines joined by newlines reads back line by line. */
  lemma FileOfLines(lines: seq<string>)
    requires |lines| >= 1
    requires forall l <- lines :: '\n' !in l
    ensures ParseCredentials(Join(lines, '\n')) == ParseLines(lines)
  {
    SplitJoin(lines, '\n');
  }

  /** A line read as the key part before its first '=' and the rest after
      it: stored exactly when the key part and the rest's text up to its
      own first '=' are both non-empty. */
  lemma ParseLineAt(key: string, rest: string)
    requires '=' !in key
    ensures var j := FirstIndex(rest, '=');
      ParseLine(key + "=" + rest) ==
        if key != "" && j > 0 then Some((Trim(key, JS_SPACE), Trim(rest[..j], JS_SPACE))) else None
  {
    var line := key + "=" + rest;
    FirstIndexAfter(key, '=', rest);
    assert line[..|key|] == key;
    assert line[|key| + 1..] == rest;
  }

  /** A line of the form `key=value`, neither part holding '=' and both
      non-empty, stores the trimmed pair. */
  lemma KeyValueLine(key: string, value: string)
    requires key != "" && value != "" && '=' !in key && '=' !in value
    ensures ParseLine(key + "=" + value) == Some((Trim(key, JS_SPACE), Trim(value, JS_SPACE)))
  {
    FirstIndexAbsent(value, '=');
    assert value[..|value|] == value;
    ParseLineAt(key, value);
  }

  /** A Windows line ending changes nothing for a stored line: the '\r'
      either follows a second '=' or is trimmed from the value. */
  lemma CarriageReturnIgnored(line: string)
    requires ParseLine(line).Some?
    ensures ParseLine(line + "\r") == ParseLine(line)
  {
    var i := FirstIndex(line, '=');
    var key := line[..i];
    var rest := line[i + 1..];
    SplitAtFirst(line, '=');
    ParseLineAt(key, rest);
    ParseLineAt(key, rest + "\r");
    ValuePartWithReturn(rest);
    AppendAfterKey(key, rest, "\r");
  }

  lemma AppendAfterKey(key: string, rest: string, u: string)
    ensures key + "=" + rest + u == key + "=" + (rest + u)
  {
  }

  /** The value part of `rest + "\r"` trims to that of `rest`. */
  lemma ValuePartWithReturn(rest: string)
    requires FirstIndex(rest, '=') > 0
    ensures var r2 := rest + "\r";
      && FirstIndex(r2, '=') > 0
      && Trim(r2[..FirstIndex(r2, '=')], JS_SPACE) == Trim(rest[..FirstIndex(rest, '=')], JS_SPACE)
  {
    var j := FirstIndex(rest, '=');
    FirstIndexAppend(rest, "\r", '=');
    if j < |rest| {
      assert (rest + "\r")[..j] == rest[..j];
    } else {
      assert FirstIndex("\r", '=') == 1;
      assert (rest + "\r")[..|rest| + 1] == rest + ['\r'];
      assert rest[..j] == rest;
      TrimIgnoresTrailing(rest, '\r', JS_SPACE);
    }
  }

  /** `key=` followed only by whitespace, such as the '\r' of a Windows
      line ending, passes the truthiness test and stores an empty value. */
  lemma BlankValueStoredEmpty(key: string, blank: string)
    requires key != "" && '=' !in key
    requires blank != "" && forall k :: 0 <= k < |blank| ==> blank[k] in JS_SPACE
    ensures ParseLine(key + "=" + blank) == Some((Trim(key, JS_SPACE), ""))
  {
    assert '=' !in blank by {
      assert forall k :: 0 <= k < |blank| ==> blank[k] != '=';
    }
    KeyValueLine(key, blank);
    TrimStartAllSpace(blank, JS_SPACE);
  }

  /** A value holding '=' is cut at it: `key=a=b` stores `a`. */
  lemma ValueCutAtEquals(key: string, value: string, tail: string)
    requires key != "" && value != "" && '=' !in key && '=' !in value
    ensures ParseLine(key + "=" + (value + "=" + tail)) == Some((Trim(key, JS_SPACE), Trim(value, JS_SPACE)))
  {
    var rest := value + "=" + tail;
    FirstIndexAfter(value, '=', tail);
    assert rest[..|value|] == value;
    ParseLineAt(key, rest);
  }

  /** A doubled '=' leaves the value part empty, so the line is skipped. */
  lemma DoubleEqualsSkipped(key: string, tail: string)
    requires '=' !in key
    ensures ParseLine(key + "==" + tail) == None
  {
    assert key + "==" + tail == key + "=" + ("=" + tail);
    ParseLineAt(key, "=" + tail);
  }

  /** A line without '=' contributes nothing. */
  lemma NoEqualsSkipped(line: string)
    requires '=' !in line
    ensures ParseLine(line) == None
  {
    FirstIndexAbsent(line, '=');
  }

  /** A line starting with '=' has an empty key part and is skipped. */
  lemma EmptyKeySkipped(tail: string)
    ensures ParseLine("=" + tail) == None
  {
    assert ("=" + tail)[0] == '=';
  }

  /** A key part made only of whitespace is non-empty, so the line is
      stored, under the empty key. */
  lemma BlankKeyStoredEmpty(blank: string, value: string)
    requires blank != "" && forall k :: 0 <= k < |blank| ==> blank[k] in JS_SPACE
    requires value != "" && '=' !in value
    ensures ParseLine(blank + "=" + value) == Some(("", Trim(value, JS_SPACE)))
  {
    assert '=' !in blank by {
      assert forall k :: 0 <= k < |blank| ==> blank[k] != '=';
    }
    KeyValueLine(blank, value);
    TrimStartAllSpace(blank, JS_SPACE);
  }
}
