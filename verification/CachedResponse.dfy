/** Header maps, responses, and the conversion of a response to the record that is cached and back. */
module CachedResponse {
  import opened Wrappers
  import opened CacheControl

  /** One header name with its values in order; a header map lists its names in insertion order. */
  datatype Entry = Entry(name: string, values: seq<string>)

  type HeaderMap = seq<Entry>

  predicate TokenChar(c: char) {
    || 'a' <= c <= 'z' || 'A' <= c <= 'Z' || '0' <= c <= '9'
    || c in "!#$%&'*+-.^_`|~"
  }

  predicate ValidName(name: string) {
    name != "" && forall c :: c in name ==> TokenChar(c)
  }

  predicate ValidValue(value: string) {
    forall c :: c in value ==> c == '\t' || (' ' <= c && c != (127 as char))
  }

  /** What the header-map type guarantees: distinct normalised names, each with at least one value. */
  predicate WellFormed(h: HeaderMap) {
    && (forall i, j :: 0 <= i < j < |h| ==> h[i].name != h[j].name)
    && forall i :: 0 <= i < |h| ==>
                     ValidName(h[i].name) && Lower(h[i].name) == h[i].name && h[i].values != []
  }

  predicate Has(h: HeaderMap, name: string) {
    exists i :: 0 <= i < |h| && h[i].name == name
  }

  function Values(h: HeaderMap, name: string): seq<string> {
    if h == [] then [] else if h[0].name == name then h[0].values else Values(h[1..], name)
  }

  /** Adds a value behind the existing ones of its name. */
  function Append(h: HeaderMap, name: string, value: string): HeaderMap {
    if h == [] then [Entry(name, [value])]
    else if h[0].name == name then [Entry(name, h[0].values + [value])] + h[1..]
    else [h[0]] + Append(h[1..], name, value)
  }

  /** Makes a value the only one of its name. */
  function Insert(h: HeaderMap, name: string, value: string): HeaderMap {
    if h == [] then [Entry(name, [value])]
    else if h[0].name == name then [Entry(name, [value])] + h[1..]
    else [h[0]] + Insert(h[1..], name, value)
  }

  datatype Response = Response(status: nat, headers: HeaderMap, body: Bytes) {
    predicate Valid() {
      100 <= status <= 999 && WellFormed(headers)
    }
  }

  /** The record that is serialised: the header map flattened to name and text value pairs. */
  datatype Serialized = Serialized(status: nat, headers: seq<(string, string)>, body: Bytes)

  datatype ResponseCodec = ResponseCodec(encode: Serialized -> Bytes, decode: Bytes -> Option<Serialized>) {
    ghost predicate Lawful() {
      forall s :: decode(encode(s)) == Some(s)
    }
  }

  /** Values that are not visible ASCII become empty. */
  function TextOrEmpty(value: string): string {
    if VisibleAscii(value) then value else ""
  }

  function Pairs(name: string, values: seq<string>): seq<(string, string)> {
    seq(|values|, i requires 0 <= i < |values| => (name, TextOrEmpty(values[i])))
  }

  function Flatten(h: HeaderMap): seq<(string, string)> {
    if h == [] then [] else Pairs(h[0].name, h[0].values) + Flatten(h[1..])
  }

  function ToSerialized(r: Response): Serialized {
    Serialized(r.status, Flatten(r.headers), r.body)
  }

  datatype BuildError = InvalidStatus | InvalidHeader

  predicate BadPair(pair: (string, string)) {
    !ValidName(pair.0) || !ValidValue(pair.1)
  }

  /** Appends pairs to a header map; names are normalised on the way. */
  function Rebuilt(acc: HeaderMap, pairs: seq<(string, string)>): Result<HeaderMap, BuildError>
    decreases pairs
  {
    if pairs == [] then Ok(acc)
    else if BadPair(pairs[0]) then Err(InvalidHeader)
    else Rebuilt(Append(acc, Lower(pairs[0].0), pairs[0].1), pairs[1..])
  }

  function Built(s: Serialized): Result<Response, BuildError> {
    if !(100 <= s.status <= 999) then
      Err(InvalidStatus)
    else
      match Rebuilt([], s.headers)
      case Err(e) => Err(e)
      case Ok(headers) => Ok(Response(s.status, headers, s.body))
  }

  method FromSerialized(s: Serialized) returns (r: Result<Response, BuildError>)
    ensures r == Built(s)
  {
    if !(100 <= s.status <= 999) {
      return Err(InvalidStatus);
    }
    var headers: HeaderMap := [];
    for i := 0 to |s.headers|
      invariant Rebuilt([], s.headers) == Rebuilt(headers, s.headers[i..])
    {
      var (name, value) := s.headers[i];
      if BadPair((name, value)) {
        return Err(InvalidHeader);
      }
      headers := Append(headers, Lower(name), value);
      assert s.headers[i..][1..] == s.headers[i + 1..];
    }
    return Ok(Response(s.status, headers, s.body));
  }

  // ---------- the round trip ----------

  function LossyEntry(e: Entry): Entry {
    Entry(e.name, seq(|e.values|, i requires 0 <= i < |e.values| => TextOrEmpty(e.values[i])))
  }

  function LossyHeaders(h: HeaderMap): HeaderMap {
    seq(|h|, i requires 0 <= i < |h| => LossyEntry(h[i]))
  }

  function Lossy(r: Response): Response {
    r.(headers := LossyHeaders(r.headers))
  }

  /** Every header value converts to text. */
  ghost predicate AllVisible(h: HeaderMap) {
    forall i, j :: 0 <= i < |h| && 0 <= j < |h[i].values| ==> VisibleAscii(h[i].values[j])
  }

  lemma {:induction false} AppendNew(h: HeaderMap, name: string, value: string)
    requires !Has(h, name)
    ensures Append(h, name, value) == h + [Entry(name, [value])]
  {
    if h != [] {
      assert h[0].name != name;
      assert !Has(h[1..], name) by {
        assert forall i :: 0 <= i < |h| - 1 ==> h[1..][i] == h[i + 1];
      }
      AppendNew(h[1..], name, value);
      assert h == [h[0]] + h[1..];
    }
  }

  lemma {:induction false} AppendLast(h: HeaderMap, name: string, values: seq<string>, value: string)
    requires !Has(h, name)
    ensures Append(h + [Entry(name, values)], name, value) == h + [Entry(name, values + [value])]
  {
    if h != [] {
      assert h[0].name != name;
      assert !Has(h[1..], name) by {
        assert forall i :: 0 <= i < |h| - 1 ==> h[1..][i] == h[i + 1];
      }
      AppendLast(h[1..], name, values, value);
      assert (h + [Entry(name, values)])[1..] == h[1..] + [Entry(name, values)];
      assert h == [h[0]] + h[1..];
    }
  }

  lemma {:induction false} VisibleIsValid(value: string)
    ensures ValidValue(TextOrEmpty(value))
  {
  }

  /** The remaining values of the name last opened are appended to it in order. */
  lemma {:induction false} RebuildValues(h: HeaderMap, name: string, seen: seq<string>, values: seq<string>,
                                         rest: seq<(string, string)>)
    requires !Has(h, name) && ValidName(name) && Lower(name) == name
    ensures Rebuilt(h + [Entry(name, seen)], Pairs(name, values) + rest)
            == Rebuilt(h + [Entry(name, seen + LossyEntry(Entry(name, values)).values)], rest)
    decreases values
  {
    var lossy := LossyEntry(Entry(name, values)).values;
    if values == [] {
      assert Pairs(name, values) + rest == rest;
      assert seen + lossy == seen;
    } else {
      var text := TextOrEmpty(values[0]);
      VisibleIsValid(values[0]);
      AppendLast(h, name, seen, text);
      var pairs := Pairs(name, values) + rest;
      assert pairs[0] == (name, text);
      assert pairs[1..] == Pairs(name, values[1..]) + rest;
      RebuildValues(h, name, seen + [text], values[1..], rest);
      assert seen + [text] + LossyEntry(Entry(name, values[1..])).values == seen + lossy;
    }
  }

  lemma {:induction false} RebuildFirst(h: HeaderMap, pairs: seq<(string, string)>)
    requires pairs != [] && !BadPair(pairs[0]) && Lower(pairs[0].0) == pairs[0].0
    ensures Rebuilt(h, pairs) == Rebuilt(Append(h, pairs[0].0, pairs[0].1), pairs[1..])
  {
  }

  lemma {:induction false} NextNameIsNew(done: HeaderMap, todo: HeaderMap)
    requires WellFormed(done + todo) && todo != []
    ensures !Has(LossyHeaders(done), todo[0].name) && todo[0].values != []
    ensures ValidName(todo[0].name) && Lower(todo[0].name) == todo[0].name
  {
    var all := done + todo;
    assert all[|done|] == todo[0];
    assert forall i :: 0 <= i < |done| ==> LossyHeaders(done)[i].name == all[i].name;
  }

  lemma {:induction false} RebuildAll(done: HeaderMap, todo: HeaderMap)
    requires WellFormed(done + todo)
    ensures Rebuilt(LossyHeaders(done), Flatten(todo)) == Ok(LossyHeaders(done + todo))
    decreases todo
  {
    if todo == [] {
      assert done + todo == done;
    } else {
      NextNameIsNew(done, todo);
      hide Lower, ValidName, ValidValue, VisibleAscii, TextOrEmpty, Append, Rebuilt, Has, WellFormed;
      var e, h := todo[0], LossyHeaders(done);
      var text := TextOrEmpty(e.values[0]);
      VisibleIsValid(e.values[0]);
      AppendNew(h, e.name, text);
      var pairs := Flatten(todo);
      var rest := Flatten(todo[1..]);
      assert pairs[0] == (e.name, text);
      assert pairs[1..] == Pairs(e.name, e.values[1..]) + rest;
      RebuildFirst(h, pairs);
      RebuildValues(h, e.name, [text], e.values[1..], rest);
      assert [text] + LossyEntry(Entry(e.name, e.values[1..])).values == LossyEntry(e).values;
      assert h + [LossyEntry(e)] == LossyHeaders(done + [e]);
      assert (done + [e]) + todo[1..] == done + todo;
      RebuildAll(done + [e], todo[1..]);
    }
  }

  /** Rebuilding a flattened response always succeeds and restores status, body and every name with its
      values in order; values outside visible ASCII come back empty. */
  lemma {:induction false} RoundTrip(r: Response)
    requires r.Valid()
    ensures Built(ToSerialized(r)) == Ok(Lossy(r))
  {
    assert [] + r.headers == r.headers;
    RebuildAll([], r.headers);
  }

  /** The round trip is the identity exactly for responses whose header values are all visible ASCII. */
  lemma {:induction false} RoundTripIsExactIff(r: Response)
    requires r.Valid()
    ensures Built(ToSerialized(r)) == Ok(r) <==> AllVisible(r.headers)
  {
    RoundTrip(r);
    var h, l := r.headers, LossyHeaders(r.headers);
    if AllVisible(h) {
      forall i | 0 <= i < |h| ensures l[i] == h[i] {
        assert LossyEntry(h[i]).values == h[i].values;
      }
      assert l == h;
    } else {
      var i, j :| 0 <= i < |h| && 0 <= j < |h[i].values| && !VisibleAscii(h[i].values[j]);
      assert l[i].values[j] == "";
    }
  }

  // ---------- the record itself, for all headers and all records ----------

  /** Flattening keeps order: entries one after the other, the values of each in order, a value as its text
      if all its characters are printable ASCII or tabs, and empty otherwise. */
  lemma {:induction false} FlattenForm(a: HeaderMap, b: HeaderMap, e: Entry)
    ensures Flatten(a + b) == Flatten(a) + Flatten(b)
    ensures |Flatten([e])| == |e.values|
    ensures forall i :: 0 <= i < |e.values| ==>
                          && Flatten([e])[i].0 == e.name
                          && Flatten([e])[i].1 ==
                             if forall c :: c in e.values[i] ==> c == '\t' || 32 <= c as int <= 126
                             then e.values[i] else ""
  {
    assert [e][1..] == [];
    if a == [] {
      assert a + b == b;
    } else {
      assert (a + b)[1..] == a[1..] + b;
      FlattenForm(a[1..], b, e);
    }
  }

  /** The values that pairs give a name, in order, whatever the letter case of the names. */
  function ValuesIn(pairs: seq<(string, string)>, name: string): seq<string> {
    if pairs == [] then []
    else (if Lower(pairs[0].0) == name then [pairs[0].1] else []) + ValuesIn(pairs[1..], name)
  }

  lemma {:induction false} AppendAddsOne(h: HeaderMap, name: string, value: string, other: string)
    ensures Values(Append(h, name, value), other) == Values(h, other) + if other == name then [value] else []
  {
    var r := Append(h, name, value);
    if h != [] && h[0].name != name {
      AppendAddsOne(h[1..], name, value, other);
      assert r[1..] == Append(h[1..], name, value);
    } else if h != [] {
      assert r[1..] == h[1..];
    }
  }

  lemma {:induction false} RebuiltForm(acc: HeaderMap, pairs: seq<(string, string)>, name: string)
    ensures Rebuilt(acc, pairs).Ok? <==> forall i :: 0 <= i < |pairs| ==> !BadPair(pairs[i])
    ensures Rebuilt(acc, pairs).Ok? ==>
              Values(Rebuilt(acc, pairs).value, name) == Values(acc, name) + ValuesIn(pairs, name)
    decreases pairs
  {
    hide BadPair;
    if pairs != [] {
      if !BadPair(pairs[0]) {
        var next := Append(acc, Lower(pairs[0].0), pairs[0].1);
        RebuiltForm(next, pairs[1..], name);
        AppendAddsOne(acc, Lower(pairs[0].0), pairs[0].1, name);
      }
      assert pairs == [pairs[0]] + pairs[1..];
      assert forall i :: 0 <= i < |pairs| - 1 ==> pairs[1..][i] == pairs[i + 1];
    }
  }

  /** Rebuilding any record: it fails exactly for a status outside 100 to 999 or a bad name or value, and
      otherwise has the record's status and body and, under every name, the values paired with it in order. */
  lemma {:induction false} BuiltForm(s: Serialized, name: string)
    ensures Built(s).Ok? <==>
            100 <= s.status <= 999
            && forall i :: 0 <= i < |s.headers| ==> ValidName(s.headers[i].0) && ValidValue(s.headers[i].1)
    ensures Built(s).Ok? ==>
              && Built(s).value.status == s.status && Built(s).value.body == s.body
              && Values(Built(s).value.headers, name) == ValuesIn(s.headers, name)
  {
    RebuiltForm([], s.headers, name);
    hide Rebuilt, ValidName, ValidValue;
  }

  // ---------- replacing one header ----------

  lemma {:induction false} HasCons(h: HeaderMap, name: string)
    requires h != []
    ensures Has(h, name) <==> h[0].name == name || Has(h[1..], name)
  {
    if i :| 0 <= i < |h| && h[i].name == name {
      assert i > 0 ==> h[1..][i - 1] == h[i];
    }
    assert forall i :: 0 <= i < |h| - 1 ==> h[1..][i] == h[i + 1];
  }

  /** Inserting leaves exactly one value under the name and every other name as it was. */
  lemma {:induction false} InsertSetsOne(h: HeaderMap, name: string, value: string, other: string)
    ensures Has(Insert(h, name, value), other) <==> Has(h, other) || other == name
    ensures Values(Insert(h, name, value), other) == if other == name then [value] else Values(h, other)
  {
    var r := Insert(h, name, value);
    HasCons(r, other);
    if h != [] {
      HasCons(h, other);
      if h[0].name == name {
        assert r[1..] == h[1..];
      } else {
        InsertSetsOne(h[1..], name, value, other);
        assert r[1..] == Insert(h[1..], name, value);
      }
    }
  }

  lemma {:induction false} InsertKeepsVisible(h: HeaderMap, name: string, value: string)
    requires AllVisible(h) && VisibleAscii(value)
    ensures AllVisible(Insert(h, name, value))
  {
    var r := Insert(h, name, value);
    if h == [] || h[0].name == name {
      assert forall i :: 0 < i < |h| ==> r[i] == h[i];
    } else {
      assert forall i :: 0 <= i < |h| - 1 ==> h[1..][i] == h[i + 1];
      InsertKeepsVisible(h[1..], name, value);
      var t := Insert(h[1..], name, value);
      assert forall i :: 0 < i < |r| ==> r[i] == t[i - 1];
    }
  }

  lemma {:induction false} InsertKeepsWellFormed(h: HeaderMap, name: string, value: string)
    requires WellFormed(h) && ValidName(name) && Lower(name) == name
    ensures WellFormed(Insert(h, name, value))
  {
    var r := Insert(h, name, value);
    if h == [] {
    } else if h[0].name == name {
      assert forall i :: 0 < i < |h| ==> r[i] == h[i];
    } else {
      assert forall i :: 0 <= i < |h| - 1 ==> h[1..][i] == h[i + 1];
      InsertKeepsWellFormed(h[1..], name, value);
      InsertSetsOne(h[1..], name, value, h[0].name);
      assert !Has(h[1..], h[0].name);
      var t := Insert(h[1..], name, value);
      assert forall i :: 0 < i < |r| ==> r[i] == t[i - 1];
    }
  }
}
