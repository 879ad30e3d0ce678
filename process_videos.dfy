/** The integer logic of process_videos.py: `time_to_seconds`, which turns
    the `HH:MM:SS` start and end times of a clip into seconds. */
module ProcessVideos {
  import opened Outcomes
  import opened Arithmetic

  /** The two exceptions `time_to_seconds` can raise: indexing a field the
      split did not produce, and `int()` on a field that is not a number. */
  datatype TimeError = IndexError | ValueError(literal: string)

  // ---------------------------------------------------------------------
  // str.split(sep) and its inverse str.join
  // ---------------------------------------------------------------------

  /** `sep.join(fields)`. */
  function Join(fields: seq<string>, sep: char): string {
    if |fields| == 0 then []
    else if |fields| == 1 then fields[0]
    else fields[0] + [sep] + Join(fields[1..], sep)
  }

  /** `s.split(sep)` for a one-character separator: the maximal
      separator-free pieces between separators, empty ones included. */
  function Split(s: string, sep: char): (fields: seq<string>)
    ensures |fields| >= 1
    ensures forall i :: 0 <= i < |fields| ==> sep !in fields[i]
  {
    if s == [] then [[]]
    else if s[0] == sep then [[]] + Split(s[1..], sep)
    else
      var rest := Split(s[1..], sep);
      [[s[0]] + rest[0]] + rest[1..]
  }

  /** Joining the fields of a split with the separator restores the string. */
  lemma {:induction false} JoinSplit(s: string, sep: char)
    ensures Join(Split(s, sep), sep) == s
  {
    if s != [] {
      JoinSplit(s[1..], sep);
      if s[0] != sep {
        JoinExtendFirst(s[0], Split(s[1..], sep), sep);
      }
    }
  }

  lemma JoinExtendFirst(c: char, fields: seq<string>, sep: char)
    requires |fields| >= 1
    ensures Join([[c] + fields[0]] + fields[1..], sep) == [c] + Join(fields, sep)
  {
    var f := [[c] + fields[0]] + fields[1..];
    if |fields| > 1 {
      assert f[1..] == fields[1..];
    }
  }

  /** A separator-free string splits into itself alone. */
  lemma {:induction false} SplitNoSeparator(s: string, sep: char)
    requires sep !in s
    ensures Split(s, sep) == [s]
  {
    if s != [] {
      SplitNoSeparator(s[1..], sep);
      assert [s[0]] + s[1..] == s;
    }
  }

  /** Splitting `a + sep + b` with a separator-free `a` yields `a` first
      and then the fields of `b`. */
  lemma {:induction false} SplitAfterField(a: string, sep: char, b: string)
    requires sep !in a
    ensures Split(a + [sep] + b, sep) == [a] + Split(b, sep)
  {
    if a == [] {
      assert a + [sep] + b == [sep] + b;
      assert ([sep] + b)[1..] == b;
    } else {
      assert (a + [sep] + b)[1..] == a[1..] + [sep] + b;
      SplitAfterField(a[1..], sep, b);
      assert [a[0]] + a[1..] == a;
    }
  }

  /** Joining separator-free fields and splitting gives them back. */
  lemma {:induction false} SplitJoin(fields: seq<string>, sep: char)
    requires |fields| >= 1
    requires forall i :: 0 <= i < |fields| ==> sep !in fields[i]
    ensures Split(Join(fields, sep), sep) == fields
  {
    if |fields| == 1 {
      SplitNoSeparator(fields[0], sep);
    } else {
      SplitJoin(fields[1..], sep);
      SplitAfterField(fields[0], sep, Join(fields[1..], sep));
      assert [fields[0]] + fields[1..] == fields;
    }
  }

  // ---------------------------------------------------------------------
  // int(field)
  // ---------------------------------------------------------------------

  predicate IsDigit(c: char) {
    '0' <= c <= '9'
  }

  predicate IsDecimal(s: string) {
    s != [] && forall i :: 0 <= i < |s| ==> IsDigit(s[i])
  }

  function DigitValue(c: char): (d: nat)
    requires IsDigit(c)
    ensures d < 10
  {
    c as nat - '0' as nat
  }

  /** The base-10 value of a digit string, most significant digit first. */
  function DecimalValue(s: string): nat
    requires forall i :: 0 <= i < |s| ==> IsDigit(s[i])
  {
    if s == [] then 0 else 10 * DecimalValue(s[..|s| - 1]) + DigitValue(s[|s| - 1])
  }

  /** Two digits form a decimal literal whose value is 10*high + low. */
  lemma TwoDigitValue(hi: char, lo: char)
    requires IsDigit(hi) && IsDigit(lo)
    ensures IsDecimal([hi, lo]) && DecimalValue([hi, lo]) == 10 * DigitValue(hi) + DigitValue(lo)
  {
    var s := [hi, lo];
    assert s[..|s| - 1] == [hi] && [hi][..0] == [];
    assert DecimalValue([hi]) == DigitValue(hi);
  }

  /** `int(literal)`, restricted to plain digit literals. */
  function IntBase10(literal: string): (r: Result<nat, TimeError>)
    ensures r.Ok? <==> IsDecimal(literal)
    ensures r.Err? ==> r.error == ValueError(literal)
  {
    if IsDecimal(literal) then Ok(DecimalValue(literal)) else Err(ValueError(literal))
  }

  /** `int(parts[k])`: IndexError when the split made fewer than k+1 fields. */
  function IntField(parts: seq<string>, k: nat): (r: Result<nat, TimeError>)
    ensures r.Ok? <==> k < |parts| && IsDecimal(parts[k])
    ensures r == Err(IndexError) <==> |parts| <= k
  {
    if k < |parts| then IntBase10(parts[k]) else Err(IndexError)
  }

  /** time_to_seconds: split on ':' and return H*3600 + M*60 + S. Python
      evaluates `int(parts[0])`, then `int(parts[1])`, then `int(parts[2])`,
      so the first of these that fails decides the exception. */
  function TimeToSeconds(timeStr: string): Result<nat, TimeError> {
    SecondsOfFields(Split(timeStr, ':'))
  }

  /** The conversion succeeds exactly when the split yields three or more
      fields of which the first three are digit strings; it raises
      IndexError exactly when there are fewer than three fields and all of
      them are digit strings (otherwise `int()` fails first). */
  lemma TimeToSecondsOutcome(timeStr: string)
    ensures var parts := Split(timeStr, ':');
      TimeToSeconds(timeStr).Ok? <==>
        |parts| >= 3 && IsDecimal(parts[0]) && IsDecimal(parts[1]) && IsDecimal(parts[2])
    ensures var parts := Split(timeStr, ':');
      TimeToSeconds(timeStr) == Err(IndexError) <==>
        |parts| < 3 && forall i :: 0 <= i < |parts| ==> IsDecimal(parts[i])
  {
    var parts := Split(timeStr, ':');
    assert TimeToSeconds(timeStr) == SecondsOfFields(parts);
  }

  /** `int(parts[0]) * 3600 + int(parts[1]) * 60 + int(parts[2])`. */
  function SecondsOfFields(parts: seq<string>): Result<nat, TimeError> {
    var hours :- IntField(parts, 0);
    var minutes :- IntField(parts, 1);
    var seconds :- IntField(parts, 2);
    Ok(hours * 3600 + minutes * 60 + seconds)
  }

  /** Only the first three fields are read. */
  lemma SecondsOfFieldsPrefix(parts: seq<string>, parts': seq<string>)
    requires |parts| >= 3 && |parts'| >= 3 && parts[..3] == parts'[..3]
    ensures SecondsOfFields(parts) == SecondsOfFields(parts')
  {
    assert parts[0] == parts'[0] && parts[1] == parts'[1] && parts[2] == parts'[2] by {
      assert parts[0] == parts[..3][0] && parts[1] == parts[..3][1] && parts[2] == parts[..3][2];
      assert parts'[0] == parts'[..3][0] && parts'[1] == parts'[..3][1] && parts'[2] == parts'[..3][2];
    }
  }

  lemma NoColonInDecimal(d: string)
    requires IsDecimal(d)
    ensures ':' !in d
  {
  }

  /** `H:M:S` with digit fields converts to H*3600 + M*60 + S. */
  lemma TimeOfFields(h: string, m: string, s: string)
    requires IsDecimal(h) && IsDecimal(m) && IsDecimal(s)
    ensures TimeToSeconds(h + ":" + m + ":" + s)
         == Ok(DecimalValue(h) * 3600 + DecimalValue(m) * 60 + DecimalValue(s))
  {
    NoColonInDecimal(h);
    NoColonInDecimal(m);
    NoColonInDecimal(s);
    SplitThree(h, m, s);
    SecondsOfThree(h, m, s);
  }

  lemma SplitThree(a: string, b: string, c: string)
    requires ':' !in a && ':' !in b && ':' !in c
    ensures Split(a + ":" + b + ":" + c, ':') == [a, b, c]
  {
    JoinThree(a, b, c, ':');
    SplitJoin([a, b, c], ':');
  }

  lemma SecondsOfThree(h: string, m: string, s: string)
    requires IsDecimal(h) && IsDecimal(m) && IsDecimal(s)
    ensures SecondsOfFields([h, m, s])
         == Ok(DecimalValue(h) * 3600 + DecimalValue(m) * 60 + DecimalValue(s))
  {
    var fields := [h, m, s];
    assert IntField(fields, 0) == Ok(DecimalValue(h));
    assert IntField(fields, 1) == Ok(DecimalValue(m));
    assert IntField(fields, 2) == Ok(DecimalValue(s));
  }

  lemma JoinThree(a: string, b: string, c: string, sep: char)
    ensures Join([a, b, c], sep) == a + [sep] + b + [sep] + c
  {
    assert [a, b, c][1..] == [b, c];
    assert [b, c][1..] == [c];
    assert Join([b, c], sep) == b + [sep] + c;
    assert Join([a, b, c], sep) == a + [sep] + (b + [sep] + c);
  }

  /** Splitting `a:b:c:rest` with colon-free a, b, c. */
  lemma SplitThreeFields(a: string, b: string, c: string, rest: string)
    requires ':' !in a && ':' !in b && ':' !in c
    ensures Split(a + ":" + b + ":" + c + ":" + rest, ':') == [a, b, c] + Split(rest, ':')
  {
    var tail := c + ":" + rest;
    var mid := b + ":" + tail;
    assert a + ":" + b + ":" + c + ":" + rest == a + [':'] + mid;
    SplitAfterField(c, ':', rest);
    SplitAfterField(b, ':', tail);
    SplitAfterField(a, ':', mid);
  }

  /** Fields after the third are ignored: `"1:2:3:99"` converts like `"1:2:3"`. */
  lemma ExtraFieldsIgnored(timeStr: string, rest: string)
    requires |Split(timeStr, ':')| == 3
    ensures TimeToSeconds(timeStr + ":" + rest) == TimeToSeconds(timeStr)
  {
    var f := Split(timeStr, ':');
    assert f == [f[0], f[1], f[2]];
    JoinSplit(timeStr, ':');
    JoinThree(f[0], f[1], f[2], ':');
    assert ':' !in f[0] && ':' !in f[1] && ':' !in f[2];
    SplitThreeFields(f[0], f[1], f[2], rest);
    var g := Split(timeStr + ":" + rest, ':');
    assert g[..3] == f[..3];
    SecondsOfFieldsPrefix(g, f);
  }

  /** With minutes and seconds below 60, H, M and S are recovered from
      H*3600 + M*60 + S by division and remainder. */
  lemma SecondsDecompose(h: nat, m: nat, s: nat)
    requires m < 60 && s < 60
    ensures (h * 3600 + m * 60 + s) / 3600 == h
    ensures (h * 3600 + m * 60 + s) % 3600 / 60 == m
    ensures (h * 3600 + m * 60 + s) % 60 == s
  {
    var r := m * 60 + s;
    QuotientRemainder(h * 3600 + r, 3600, h, r);
    QuotientRemainder(r, 60, m, s);
    QuotientRemainder(h * 3600 + r, 60, h * 60 + m, s);
  }
}
