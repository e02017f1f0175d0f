/** The `tracestate` header (section 3.3 of W3C Trace Context): the host prints key-value pairs, the guest
    parses the header back. */
module TraceState {
  import opened Wrappers
  import opened Strings

  type Pair = (string, string)

  function Member(p: Pair): string {
    p.0 + "=" + p.1
  }

  function Members(pairs: seq<Pair>): seq<string> {
    seq(|pairs|, i requires 0 <= i < |pairs| => Member(pairs[i]))
  }

  function Print(pairs: seq<Pair>): string {
    Join(Members(pairs), ',')
  }

  /** Members without '=' are dropped. */
  function KeepPairs(members: seq<string>): seq<Pair> {
    if members == [] then
      []
    else
      match SplitOnce(members[0], '=')
      case None => KeepPairs(members[1..])
      case Some(p) => [p] + KeepPairs(members[1..])
  }

  function Parse(header: string): seq<Pair> {
    KeepPairs(Split(header, ','))
  }

  /** No '=' or ',' in the key, no ',' in the value. */
  predicate Clean(p: Pair) {
    Free(p.0, '=') && Free(p.0, ',') && Free(p.1, ',')
  }

  lemma {:induction false} KeepPairsOfMembers(pairs: seq<Pair>)
    requires forall p :: p in pairs ==> Free(p.0, '=')
    ensures KeepPairs(Members(pairs)) == pairs
  {
    if pairs != [] {
      var p := pairs[0];
      assert p in pairs;
      assert Member(p) == p.0 + ['='] + p.1;
      SplitOnceAt(p.0, p.1, '=');
      assert Members(pairs)[1..] == Members(pairs[1..]);
      KeepPairsOfMembers(pairs[1..]);
    }
  }

  lemma {:induction false} KeepPairsAreClean(members: seq<string>)
    requires forall m :: m in members ==> Free(m, ',')
    ensures forall p :: p in KeepPairs(members) ==> Clean(p)
  {
    if members != [] {
      var m := members[0];
      assert m in members;
      SplitOnceParts(m, '=');
      if SplitOnce(m, '=').Some? {
        var (key, value) := SplitOnce(m, '=').value;
        assert forall c :: c in key || c in value ==> c in m;
      }
      assert forall x :: x in members[1..] ==> x in members;
      KeepPairsAreClean(members[1..]);
    }
  }

  /** Parsing always gives clean pairs. */
  lemma {:induction false} ParseIsClean(header: string)
    ensures forall p :: p in Parse(header) ==> Clean(p)
  {
    JoinSplit(header, ',');
    KeepPairsAreClean(Split(header, ','));
  }

  /** The printed form itself: members in list order, key before value, '=' between them, commas between
      members. */
  lemma {:induction false} PrintedForm(p: Pair, a: seq<Pair>, b: seq<Pair>)
    ensures Print([]) == "" && Print([p]) == p.0 + "=" + p.1
    ensures a != [] && b != [] ==> Print(a + b) == Print(a) + "," + Print(b)
  {
    assert Members([]) == [] && Members([p]) == [p.0 + "=" + p.1];
    if a != [] && b != [] {
      assert Members(a + b) == Members(a) + Members(b);
      JoinAppend(Members(a), Members(b), ',');
    }
  }

  lemma {:induction false} KeepPairsAppend(a: seq<string>, b: seq<string>)
    ensures KeepPairs(a + b) == KeepPairs(a) + KeepPairs(b)
  {
    if a == [] {
      assert a + b == b;
    } else {
      assert (a + b)[1..] == a[1..] + b;
      KeepPairsAppend(a[1..], b);
    }
  }

  /** What parsing makes of any header: the members between commas are read one by one and in order, each
      split at its first '=', and a member without one is dropped. */
  lemma {:induction false} ParsedForm(a: string, b: string, key: string, value: string)
    ensures Parse(a + "," + b) == Parse(a) + Parse(b)
    ensures ',' !in a && '=' !in a ==> Parse(a) == []
    ensures ',' !in key && ',' !in value && '=' !in key ==> Parse(key + "=" + value) == [(key, value)]
  {
    SplitAppend(a, b, ',');
    KeepPairsAppend(Split(a, ','), Split(b, ','));
    if ',' !in a && '=' !in a {
      SplitFree(a, ',');
      SplitOnceParts(a, '=');
      assert KeepPairs([a]) == [] by {
        assert [a][1..] == [];
      }
    }
    if ',' !in key && ',' !in value && '=' !in key {
      var m := key + ['='] + value;
      assert m == key + "=" + value && ',' !in m;
      SplitFree(m, ',');
      KeepPairsOfMembers([(key, value)]);
      assert Members([(key, value)]) == [m];
    }
  }

  /** Parsing undoes printing exactly for clean pair lists, the empty list included. */
  lemma {:induction false} ParsePrintIff(pairs: seq<Pair>)
    ensures Parse(Print(pairs)) == pairs <==> forall p :: p in pairs ==> Clean(p)
  {
    ParseIsClean(Print(pairs));
    if forall p :: p in pairs ==> Clean(p) {
      if pairs == [] {
        assert Split("", ',') == [""] && SplitOnce("", '=') == None;
        assert KeepPairs([""]) == [];
      } else {
        forall m | m in Members(pairs) ensures Free(m, ',') {
          var i :| 0 <= i < |pairs| && m == Member(pairs[i]);
          assert pairs[i] in pairs;
        }
        SplitJoin(Members(pairs), ',');
        KeepPairsOfMembers(pairs);
      }
    }
  }

  lemma {:induction false} MembersOfKeepPairs(members: seq<string>)
    ensures |KeepPairs(members)| <= |members|
    ensures |KeepPairs(members)| == |members| <==> forall m :: m in members ==> !Free(m, '=')
    ensures (forall m :: m in members ==> !Free(m, '=')) ==> Members(KeepPairs(members)) == members
  {
    if members != [] {
      var m := members[0];
      SplitOnceParts(m, '=');
      MembersOfKeepPairs(members[1..]);
      assert members == [m] + members[1..];
      if (forall x :: x in members ==> !Free(x, '=')) {
        assert m in members && forall x :: x in members[1..] ==> x in members;
        var pairs := KeepPairs(members);
        assert Members(pairs) == [Member(pairs[0])] + Members(pairs[1..]);
      }
    }
  }

  /** Printing undoes parsing exactly for headers whose members all contain '=', and for the empty one. */
  lemma {:induction false} PrintParseIff(header: string)
    ensures Print(Parse(header)) == header
            <==> header == "" || forall m :: m in Split(header, ',') ==> !Free(m, '=')
  {
    var members := Split(header, ',');
    JoinSplit(header, ',');
    MembersOfKeepPairs(members);
    if !(forall m :: m in members ==> !Free(m, '=')) {
      var pairs := Parse(header);
      if pairs == [] {
        assert Print(pairs) == "";
      } else if Print(pairs) == header {
        ParseIsClean(header);
        forall m | m in Members(pairs) ensures Free(m, ',') {
          var i :| 0 <= i < |pairs| && m == Member(pairs[i]);
          assert pairs[i] in pairs;
        }
        SplitJoin(Members(pairs), ',');
        assert false;
      }
    }
  }

  /** Normalising a header is idempotent, for all strings. */
  lemma {:induction false} PrintParseIsIdempotent(header: string)
    ensures Print(Parse(Print(Parse(header)))) == Print(Parse(header))
    ensures Parse(Print(Parse(header))) == Parse(header)
  {
    ParseIsClean(header);
    ParsePrintIff(Parse(header));
  }
}
