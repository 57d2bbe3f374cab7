/** Flat JSON objects in canonical form: sorted keys, no spaces, values that are plain texts, whole numbers or other
    bare words. */
module Json {
  import opened Calendar

  datatype Value = Text(text: string) | Number(number: int) | Bare(word: string)

  type Members = seq<(string, Value)>

  function NumberText(n: int): string { if n >= 0 then Decimal(n) else "-" + Decimal(-n) }

  function Scalar(v: Value): string {
    match v
    case Text(t) => "\"" + t + "\""
    case Number(n) => NumberText(n)
    case Bare(w) => w
  }

  function RenderMembers(o: Members): string
    requires o != []
  {
    "\"" + o[0].0 + "\":" + Scalar(o[0].1) + (if |o| == 1 then "}" else "," + RenderMembers(o[1..]))
  }

  function Render(o: Members): string
    requires o != []
  {
    "{" + RenderMembers(o)
  }

  // ---------------------------------------------------------------- reading

  /** How far `s` goes before one of `stops`. */
  function Span(s: string, stops: set<char>): (n: nat)
    ensures n <= |s| && (n < |s| ==> s[n] in stops) && forall i | 0 <= i < n :: s[i] !in stops
  {
    if s == "" || s[0] in stops then 0 else 1 + Span(s[1..], stops)
  }

  lemma {:induction false} SpanTo(a: string, stops: set<char>, tail: string)
    requires forall c | c in a :: c !in stops
    requires tail != "" && tail[0] in stops
    ensures Span(a + tail, stops) == |a|
  {
    if a == "" {
      assert a + tail == tail;
    } else {
      assert (a + tail)[1..] == a[1..] + tail;
      SpanTo(a[1..], stops, tail);
    }
  }

  /** Digits without a leading zero, as JSON and Python write whole numbers. */
  predicate Canonical(digits: string) {
    digits != "" && (forall c | c in digits :: IsDigit(c)) && (|digits| == 1 || digits[0] != '0')
  }

  /** A bare word is a number if it is the canonical text of one. */
  function ReadBare(word: string): Value {
    if Canonical(word) then Number(NumberOf(word))
    else if word != "" && word[0] == '-' && Canonical(word[1..]) && NumberOf(word[1..]) != 0 then
      Number(0 - NumberOf(word[1..]))
    else Bare(word)
  }

  function ReadValue(s: string): Option<(Value, string)> {
    if s == "" then None
    else if s[0] == '"' then
      var n := Span(s[1..], {'"'});
      if n == |s[1..]| then None else Some((Text(s[1..][..n]), s[1..][n + 1..]))
    else
      var n := Span(s, {',', '}'});
      Some((ReadBare(s[..n]), s[n..]))
  }

  function ReadKey(s: string): Option<(string, string)> {
    if s == "" || s[0] != '"' then None else
      var n := Span(s[1..], {'"'});
      if n + 1 >= |s[1..]| || s[1..][n + 1] != ':' then None else Some((s[1..][..n], s[1..][n + 2..]))
  }

  function ParseMembers(s: string): Option<Members>
    decreases |s|
  {
    match ReadKey(s)
    case None => None
    case Some((key, afterKey)) =>
      match ReadValue(afterKey)
      case None => None
      case Some((value, rest)) =>
        if rest == "}" then Some([(key, value)])
        else if rest == "" || rest[0] != ',' || |rest| > |s| then None
        else
          match ParseMembers(rest[1..])
          case None => None
          case Some(others) => Some([(key, value)] + others)
  }

  function Parse(s: string): Option<Members> { if s == "" || s[0] != '{' then None else ParseMembers(s[1..]) }

  // ---------------------------------------------------------------- reading what was rendered

  predicate Plain(s: string) { forall c | c in s :: c != '"' }

  predicate PlainValue(v: Value) {
    match v
    case Text(t) => Plain(t)
    case Number(_) => true
    case Bare(w) => w != "" && w[0] != '"' && (forall c | c in w :: c != ',' && c != '}') && ReadBare(w) == v
  }

  predicate PlainMembers(o: Members) { forall m | m in o :: Plain(m.0) && PlainValue(m.1) }

  lemma {:induction false} DecimalIsCanonical(n: nat)
    ensures Canonical(Decimal(n)) && NumberOf(Decimal(n)) == n && (n > 0 ==> Decimal(n)[0] != '0')
  {
    DecimalValue(n);
    if n >= 10 { DecimalIsCanonical(n / 10); }
  }

  lemma NumberReads(n: int)
    ensures var t := NumberText(n);
      t != "" && t[0] != '"' && (forall c | c in t :: c != ',' && c != '}') && ReadBare(t) == Number(n)
  {
    hide Decimal, NumberOf;
    var digits := Decimal(if n >= 0 then n else -n);
    DecimalIsCanonical(if n >= 0 then n else -n);
    assert digits[0] in digits;
    if n < 0 {
      var t := "-" + digits;
      assert t[1..] == digits;
      assert '-' in t && !IsDigit('-');
    }
  }

  lemma KeyReads(key: string, tail: string)
    requires Plain(key)
    ensures ReadKey("\"" + key + "\":" + tail) == Some((key, tail))
  {
    var s := "\"" + key + "\":" + tail;
    assert s[1..] == key + ("\":" + tail);
    SpanTo(key, {'"'}, "\":" + tail);
  }

  lemma ValueReads(v: Value, tail: string)
    requires PlainValue(v) && tail != "" && (tail[0] == ',' || tail[0] == '}')
    ensures ReadValue(Scalar(v) + tail) == Some((v, tail))
  {
    hide ReadBare, Decimal;
    var s := Scalar(v) + tail;
    if v.Text? {
      assert s[1..] == v.text + ("\"" + tail);
      SpanTo(v.text, {'"'}, "\"" + tail);
    } else {
      if v.Number? { NumberReads(v.number); }
      SpanTo(Scalar(v), {',', '}'}, tail);
    }
  }

  lemma MemberParses(key: string, v: Value, tail: string)
    requires Plain(key) && PlainValue(v) && tail != "" && (tail[0] == ',' || tail[0] == '}')
    ensures var s := "\"" + key + "\":" + Scalar(v) + tail;
      && (tail == "}" ==> ParseMembers(s) == Some([(key, v)]))
      && (tail[0] == ',' && ParseMembers(tail[1..]).Some?
        ==> ParseMembers(s) == Some([(key, v)] + ParseMembers(tail[1..]).value))
  {
    hide ReadKey, ReadValue, PlainValue, Plain, Scalar;
    var value := Scalar(v) + tail;
    assert "\"" + key + "\":" + Scalar(v) + tail == "\"" + key + "\":" + value;
    KeyReads(key, value);
    ValueReads(v, tail);
  }

  lemma {:induction false} MembersParse(o: Members)
    requires o != [] && PlainMembers(o)
    ensures ParseMembers(RenderMembers(o)) == Some(o)
  {
    hide ParseMembers, PlainValue, Plain, Scalar;
    var tail := if |o| == 1 then "}" else "," + RenderMembers(o[1..]);
    assert o[0] in o;
    assert RenderMembers(o) == "\"" + o[0].0 + "\":" + Scalar(o[0].1) + tail;
    MemberParses(o[0].0, o[0].1, tail);
    if |o| == 1 {
      assert o == [o[0]];
    } else {
      MembersParse(o[1..]);
      assert tail[1..] == RenderMembers(o[1..]);
      assert o == [(o[0].0, o[0].1)] + o[1..];
    }
  }

  /** Reading a rendered object gives its members back, in order. */
  lemma ParseInvertsRender(o: Members)
    requires o != [] && PlainMembers(o)
    ensures Parse(Render(o)) == Some(o)
  {
    MembersParse(o);
    assert Render(o)[1..] == RenderMembers(o);
  }

  // ---------------------------------------------------------------- duplicate keys

  ghost predicate DistinctNames(pairs: Members) { forall i, j | 0 <= i < j < |pairs| :: pairs[i].0 != pairs[j].0 }

  ghost predicate Named(pairs: Members, k: string) { exists i :: 0 <= i < |pairs| && pairs[i].0 == k }

  ghost predicate Holds(d: map<string, Value>, pairs: Members) {
    && (forall k :: k in d <==> Named(pairs, k))
    && (forall i | 0 <= i < |pairs| :: pairs[i].0 in d && d[pairs[i].0] == pairs[i].1)
  }

  /** The dictionary of the pairs; None for a repeated key. */
  function Dictionary(pairs: Members): Option<map<string, Value>> {
    if pairs == [] then Some(map[]) else
      var last := pairs[|pairs| - 1];
      match Dictionary(pairs[..|pairs| - 1])
      case None => None
      case Some(d) => if last.0 in d then None else Some(d[last.0 := last.1])
  }

  lemma {:induction false} DictionaryMeans(pairs: Members)
    ensures Dictionary(pairs).Some? <==> DistinctNames(pairs)
    ensures Dictionary(pairs).Some? ==> Holds(Dictionary(pairs).value, pairs)
  {
    if pairs != [] {
      var before, last := pairs[..|pairs| - 1], pairs[|pairs| - 1];
      DictionaryMeans(before);
      if DistinctNames(pairs) {
        assert DistinctNames(before);
      }
      if DistinctNames(before) {
        var d := Dictionary(before).value;
        if last.0 in d {
          var i :| 0 <= i < |before| && before[i].0 == last.0;
          assert pairs[i].0 == pairs[|pairs| - 1].0;
        } else {
          forall i, j | 0 <= i < j < |pairs| ensures pairs[i].0 != pairs[j].0 {
            assert before[i].0 in d;
          }
          HoldsOneMore(d, before, last);
          assert before + [last] == pairs;
        }
      }
    }
  }

  lemma HoldsOneMore(d: map<string, Value>, pairs: Members, last: (string, Value))
    requires Holds(d, pairs) && last.0 !in d
    ensures Holds(d[last.0 := last.1], pairs + [last])
  {
    var more := pairs + [last];
    forall k ensures k in d[last.0 := last.1] <==> Named(more, k) {
      if k in d {
        var i :| 0 <= i < |pairs| && pairs[i].0 == k;
        assert more[i].0 == k;
      }
      assert more[|pairs|].0 == last.0;
      forall i | 0 <= i < |pairs| ensures pairs[i].0 == more[i].0 {}
    }
  }

  lemma {:induction false} RepeatedStays(pairs: Members, i: nat)
    requires i <= |pairs| && Dictionary(pairs[..i]).None?
    ensures Dictionary(pairs).None?
  {
    if i < |pairs| {
      assert pairs[..|pairs| - 1][..i] == pairs[..i];
      RepeatedStays(pairs[..|pairs| - 1], i);
    } else {
      assert pairs[..i] == pairs;
    }
  }

  /** _reject_duplicates; None is the ValueError. */
  method RejectDuplicates(pairs: Members) returns (dictionary: Option<map<string, Value>>)
    ensures dictionary.Some? <==> DistinctNames(pairs)
    ensures dictionary.Some? ==> Holds(dictionary.value, pairs)
    ensures dictionary == Dictionary(pairs)
  {
    hide DistinctNames, Holds;
    DictionaryMeans(pairs);
    var result: map<string, Value> := map[];
    var i := 0;
    while i < |pairs|
      invariant i <= |pairs| && Dictionary(pairs[..i]) == Some(result)
    {
      assert pairs[..i + 1][..i] == pairs[..i];
      if pairs[i].0 in result {
        RepeatedStays(pairs, i + 1);
        return None;
      }
      result := result[pairs[i].0 := pairs[i].1];
      i := i + 1;
    }
    assert pairs[..i] == pairs;
    dictionary := Some(result);
  }
}
