/** The `runtime!` macro: deduplication of backends, field names derived from type names, and whether the
    references in the generated code resolve. Identifiers are ASCII. */
module RuntimeMacro {
  import opened Wrappers

  /** A type path as its identifiers; a plain name has one. */
  type Path = seq<string>

  /** One `type: backend` pair of the macro input. */
  datatype Host = Host(wasi: Path, backend: Path)

  /** The identifier of a path that is a single one. */
  function GetIdent(path: Path): Option<string> {
    if |path| == 1 then Some(path[0]) else None
  }

  predicate IsUpper(c: char) {
    'A' <= c <= 'Z'
  }

  function ToLower(c: char): char {
    if IsUpper(c) then c - 'A' + 'a' else c
  }

  function ToUpper(c: char): char {
    if 'a' <= c <= 'z' then c - 'a' + 'A' else c
  }

  /** An underscore before every capital but one at the very start, everything in lower case. */
  function SnakeFrom(s: string, first: bool): string {
    if s == "" then ""
    else (if IsUpper(s[0]) then (if first then "" else "_") + [ToLower(s[0])] else [s[0]]) + SnakeFrom(s[1..], false)
  }

  function Field(path: Path): string {
    if path == [] then "field" else SnakeFrom(path[|path| - 1], true)
  }

  method FieldIdent(path: Path) returns (field: string)
    ensures field == Field(path)
    ensures path == [] ==> field == "field"
    ensures path != [] ==> IsSnakeOf(path[|path| - 1], field)
  {
    FieldForm(path);
    if path == [] {
      return "field";
    }
    var ident := path[|path| - 1];
    field := "";
    for i := 0 to |ident|
      invariant field == SnakeFrom(ident[..i], true)
      invariant field == "" <==> i == 0
    {
      hide *;
      SnakeNext(ident, i);
      if IsUpper(ident[i]) {
        if field != "" {
          field := field + "_";
        }
        field := field + [ToLower(ident[i])];
      } else {
        field := field + [ident[i]];
      }
    }
    assert ident[..|ident|] == ident;
  }

  lemma {:induction false} SnakeAppend(s: string, c: char, first: bool)
    ensures SnakeFrom(s + [c], first) ==
            SnakeFrom(s, first) + if IsUpper(c) then (if first && s == "" then "" else "_") + [ToLower(c)] else [c]
  {
    if s == "" {
      assert (s + [c])[1..] == "";
    } else {
      SnakeAppend(s[1..], c, false);
      assert (s + [c])[1..] == s[1..] + [c];
    }
  }

  lemma {:induction false} SnakeNext(ident: string, i: nat)
    requires i < |ident|
    ensures SnakeFrom(ident[..i + 1], true) ==
            SnakeFrom(ident[..i], true)
            + if IsUpper(ident[i]) then (if i == 0 then "" else "_") + [ToLower(ident[i])] else [ident[i]]
  {
    SnakeAppend(ident[..i], ident[i], true);
    assert ident[..i + 1] == ident[..i] + [ident[i]];
  }

  /** The capitals among the first `n` characters, the very first left out: one underscore each. */
  function Inner(ident: string, n: nat): nat
    requires n <= |ident|
  {
    if n <= 1 then 0 else Inner(ident, n - 1) + if 'A' <= ident[n - 1] <= 'Z' then 1 else 0
  }

  /** Character `i` of the identifier stands at `i` plus the underscores so far: a capital as its small
      letter, behind an underscore unless it is the first, any other character as it is. */
  ghost predicate Placed(ident: string, i: nat, field: string)
    requires i < |ident|
  {
    var at := i + Inner(ident, i + 1);
    && at < |field|
    && (if 'A' <= ident[i] <= 'Z' then field[at] as int == ident[i] as int + 32 else field[at] == ident[i])
    && ('A' <= ident[i] <= 'Z' && i > 0 ==> field[at - 1] == '_')
  }

  ghost predicate IsSnakeOf(ident: string, field: string) {
    |field| == |ident| + Inner(ident, |ident|) && forall i :: 0 <= i < |ident| ==> Placed(ident, i, field)
  }

  lemma {:induction false} SnakeIsPlaced(ident: string, n: nat)
    requires n <= |ident|
    ensures |SnakeFrom(ident[..n], true)| == n + Inner(ident, n)
    ensures forall i :: 0 <= i < n ==> Placed(ident, i, SnakeFrom(ident[..n], true))
  {
    if n > 0 {
      SnakeIsPlaced(ident, n - 1);
      SnakeNext(ident, n - 1);
      hide SnakeFrom;
      forall i | 0 <= i < n ensures Placed(ident, i, SnakeFrom(ident[..n], true)) {
        if i < n - 1 {
          assert Placed(ident, i, SnakeFrom(ident[..n - 1], true));
        }
      }
    }
  }

  /** The field name, character by character, and where it comes from: the last segment of the path. */
  lemma {:induction false} FieldForm(path: Path)
    ensures Field([]) == "field"
    ensures path != [] ==> IsSnakeOf(path[|path| - 1], Field(path))
  {
    if path != [] {
      var ident := path[|path| - 1];
      SnakeIsPlaced(ident, |ident|);
      assert ident[..|ident|] == ident;
    }
  }

  // ---------- deduplication ----------

  function KeptBackends(hosts: seq<Host>): seq<Path> {
    if hosts == [] then
      []
    else
      var kept, backend := KeptBackends(hosts[..|hosts| - 1]), hosts[|hosts| - 1].backend;
      if exists i :: 0 <= i < |kept| && GetIdent(kept[i]) == GetIdent(backend) then kept else kept + [backend]
  }

  /** Backends are compared by their single identifier; two longer paths therefore count as equal. */
  method ParseBackends(hosts: seq<Host>) returns (backends: seq<Path>)
    ensures backends == KeptBackends(hosts)
  {
    backends := [];
    for i := 0 to |hosts|
      invariant backends == KeptBackends(hosts[..i])
    {
      assert hosts[..i + 1][..i] == hosts[..i];
      var known := false;
      for j := 0 to |backends|
        invariant known <==> exists k :: 0 <= k < j && GetIdent(backends[k]) == GetIdent(hosts[i].backend)
      {
        if GetIdent(backends[j]) == GetIdent(hosts[i].backend) {
          known := true;
        }
      }
      if !known {
        backends := backends + [hosts[i].backend];
      }
    }
    assert hosts[..|hosts|] == hosts;
  }

  function Fields(backends: seq<Path>): seq<string> {
    seq(|backends|, i requires 0 <= i < |backends| => Field(backends[i]))
  }

  function FirstFields(backends: seq<Path>): seq<string> {
    if backends == [] then []
    else
      var init, last := backends[..|backends| - 1], backends[|backends| - 1];
      FirstFields(init) + if last in init then [] else [Field(last)]
  }

  /** The context fields, one per distinct backend. */
  method ContextFields(backends: seq<Path>) returns (fields: seq<string>)
    ensures fields == FirstFields(backends)
  {
    fields := [];
    var seen: seq<Path> := [];
    for i := 0 to |backends|
      invariant forall b :: b in seen <==> b in backends[..i]
      invariant fields == FirstFields(backends[..i])
    {
      assert backends[..i + 1][..i] == backends[..i];
      assert backends[..i + 1] == backends[..i] + [backends[i]];
      if backends[i] in seen {
        continue;
      }
      seen := seen + [backends[i]];
      var field := FieldIdent(backends[i]);
      fields := fields + [field];
    }
    assert backends[..|backends|] == backends;
  }

  /** After the first deduplication the second one drops nothing: every kept backend has its field. */
  lemma {:induction false} KeptBackendsAllHaveFields(hosts: seq<Host>)
    ensures FirstFields(KeptBackends(hosts)) == Fields(KeptBackends(hosts))
  {
    if hosts != [] {
      var init, backend := hosts[..|hosts| - 1], hosts[|hosts| - 1].backend;
      var kept, all := KeptBackends(init), KeptBackends(hosts);
      KeptBackendsAllHaveFields(init);
      if all != kept {
        assert all[..|kept|] == kept;
        assert backend !in kept;
        assert Fields(all) == Fields(kept) + [Field(backend)];
      }
    }
  }

  /** Kept backends come in the order of their first mention: later hosts only add behind. */
  lemma {:induction false} KeptInOrder(hosts: seq<Host>, k: nat)
    requires k <= |hosts|
    ensures KeptBackends(hosts[..k]) <= KeptBackends(hosts)
    ensures k < |hosts| && KeptBackends(hosts[..k + 1]) != KeptBackends(hosts[..k])
            ==> KeptBackends(hosts[..k + 1]) == KeptBackends(hosts[..k]) + [hosts[k].backend]
    decreases |hosts|
  {
    if k == |hosts| {
      assert hosts[..k] == hosts;
    } else {
      assert hosts[..k + 1][..k] == hosts[..k];
      KeptInOrder(hosts[..|hosts| - 1], k);
      assert hosts[..|hosts| - 1][..k] == hosts[..k];
    }
  }

  // ---------- do the references resolve? ----------

  /** The generated store reads `self.<field>` for every host; this one names a declared context field. */
  ghost predicate Resolves(hosts: seq<Host>, h: Host) {
    exists b :: b in KeptBackends(hosts) && Field(b) == Field(h.backend)
  }

  /** The first backend of the list that is not a single identifier. */
  function FirstLong(hosts: seq<Host>): Option<Path> {
    if hosts == [] then None
    else if FirstLong(hosts[..|hosts| - 1]).Some? then FirstLong(hosts[..|hosts| - 1])
    else if GetIdent(hosts[|hosts| - 1].backend).None? then Some(hosts[|hosts| - 1].backend)
    else None
  }

  lemma {:induction false} SameIdentSamePath(a: Path, b: Path)
    requires GetIdent(a) == GetIdent(b) && GetIdent(a).Some?
    ensures a == b
  {
  }

  lemma {:induction false} KeptDistinct(hosts: seq<Host>)
    ensures forall i, j :: 0 <= i < j < |KeptBackends(hosts)| ==>
                             GetIdent(KeptBackends(hosts)[i]) != GetIdent(KeptBackends(hosts)[j])
  {
    if hosts != [] {
      hide GetIdent;
      KeptDistinct(hosts[..|hosts| - 1]);
    }
  }

  lemma {:induction false} MentionedSnoc(hosts: seq<Host>, b: Path)
    requires hosts != []
    ensures
      var init := hosts[..|hosts| - 1];
      (exists i :: 0 <= i < |hosts| && hosts[i].backend == b)
      <==> (exists i :: 0 <= i < |init| && init[i].backend == b) || hosts[|hosts| - 1].backend == b
  {
    var init := hosts[..|hosts| - 1];
    if i :| 0 <= i < |hosts| && hosts[i].backend == b {
      assert i < |init| ==> init[i].backend == b;
    }
    if i :| 0 <= i < |init| && init[i].backend == b {
      assert hosts[i].backend == b;
    }
  }

  /** A backend of one identifier is kept if it is mentioned at all, of the longer paths only the first; and
      no two kept ones have the same identifier. */
  lemma {:induction false} KeptIff(hosts: seq<Host>, b: Path)
    ensures b in KeptBackends(hosts) <==>
            if GetIdent(b).Some? then exists i :: 0 <= i < |hosts| && hosts[i].backend == b
            else FirstLong(hosts) == Some(b)
    ensures forall i, j :: 0 <= i < j < |KeptBackends(hosts)| ==>
                             GetIdent(KeptBackends(hosts)[i]) != GetIdent(KeptBackends(hosts)[j])
    ensures FirstLong(hosts).Some? ==>
              GetIdent(FirstLong(hosts).value).None? && FirstLong(hosts).value in KeptBackends(hosts)
  {
    KeptDistinct(hosts);
    if hosts != [] {
      hide GetIdent;
      var init, last := hosts[..|hosts| - 1], hosts[|hosts| - 1];
      var kept := KeptBackends(init);
      KeptIff(init, b);
      KeptIff(init, last.backend);
      MentionedSnoc(hosts, b);
      if i :| 0 <= i < |kept| && GetIdent(kept[i]) == GetIdent(last.backend) {
        assert kept[i] in kept;
        KeptIff(init, kept[i]);
        if GetIdent(last.backend).Some? {
          SameIdentSamePath(kept[i], last.backend);
        }
      }
    }
  }

  /** Every reference resolves exactly when each backend that is a longer path shares its field name with
      the first such backend or with a plain one. In particular plain backends always resolve. */
  lemma {:induction false} ReferencesResolveIff(hosts: seq<Host>)
    ensures (forall i :: 0 <= i < |hosts| ==> Resolves(hosts, hosts[i]))
            <==> forall i :: 0 <= i < |hosts| && GetIdent(hosts[i].backend).None? ==>
                               || (FirstLong(hosts).Some? && Field(FirstLong(hosts).value) == Field(hosts[i].backend))
                               || exists j :: 0 <= j < |hosts| && GetIdent(hosts[j].backend).Some?
                                              && Field(hosts[j].backend) == Field(hosts[i].backend)
  {
    forall i | 0 <= i < |hosts|
      ensures Resolves(hosts, hosts[i]) <==>
              || GetIdent(hosts[i].backend).Some?
              || (FirstLong(hosts).Some? && Field(FirstLong(hosts).value) == Field(hosts[i].backend))
              || exists j :: 0 <= j < |hosts| && GetIdent(hosts[j].backend).Some?
                             && Field(hosts[j].backend) == Field(hosts[i].backend)
    {
      ResolvesIff(hosts, hosts[i]);
      KeptIff(hosts, hosts[i].backend);
    }
  }

  lemma {:induction false} ResolvesIff(hosts: seq<Host>, h: Host)
    ensures Resolves(hosts, h) <==>
            || (FirstLong(hosts).Some? && Field(FirstLong(hosts).value) == Field(h.backend))
            || exists j :: 0 <= j < |hosts| && GetIdent(hosts[j].backend).Some?
                           && Field(hosts[j].backend) == Field(h.backend)
  {
    if Resolves(hosts, h) {
      var b :| b in KeptBackends(hosts) && Field(b) == Field(h.backend);
      KeptIff(hosts, b);
    }
    KeptIff(hosts, h.backend);
    if FirstLong(hosts).Some? && Field(FirstLong(hosts).value) == Field(h.backend) {
      assert FirstLong(hosts).value in KeptBackends(hosts);
    }
    if j :| 0 <= j < |hosts| && GetIdent(hosts[j].backend).Some? && Field(hosts[j].backend) == Field(h.backend) {
      KeptIff(hosts, hosts[j].backend);
      assert hosts[j].backend in KeptBackends(hosts);
    }
  }

  // ---------- are the field names distinct? ----------

  /** Back to capitals: the first letter and every letter after an underscore. */
  function CamelFrom(f: string, capital: bool): string {
    if f == "" then ""
    else if f[0] == '_' then CamelFrom(f[1..], true)
    else [if capital then ToUpper(f[0]) else f[0]] + CamelFrom(f[1..], false)
  }

  /** Starts with no small letter and has no underscore. */
  predicate IsCamel(ident: string) {
    '_' !in ident && (ident != "" ==> ToUpper(ident[0]) == ident[0])
  }

  lemma {:induction false} CamelOfSnakeTail(s: string)
    requires '_' !in s
    ensures CamelFrom(SnakeFrom(s, false), false) == s
  {
    if s != "" {
      CamelOfSnakeTail(s[1..]);
      var snake, tail := SnakeFrom(s, false), SnakeFrom(s[1..], false);
      assert s == [s[0]] + s[1..];
      if IsUpper(s[0]) {
        assert snake == "_" + ([ToLower(s[0])] + tail);
        assert snake[1..] == [ToLower(s[0])] + tail;
        assert ([ToLower(s[0])] + tail)[1..] == tail;
      } else {
        assert snake[1..] == tail;
      }
    }
  }

  lemma {:induction false} CamelHasNoUnderscore(f: string, capital: bool)
    ensures '_' !in CamelFrom(f, capital)
    ensures capital && CamelFrom(f, capital) != "" ==> ToUpper(CamelFrom(f, capital)[0]) == CamelFrom(f, capital)[0]
  {
    if f != "" {
      CamelHasNoUnderscore(f[1..], f[0] == '_');
    }
  }

  /** Going back to capitals recovers the type name exactly for names in camel case. */
  lemma {:induction false} SnakeIsInvertibleIff(ident: string)
    ensures CamelFrom(SnakeFrom(ident, true), true) == ident <==> IsCamel(ident)
  {
    CamelHasNoUnderscore(SnakeFrom(ident, true), true);
    if IsCamel(ident) && ident != "" {
      var snake, tail := SnakeFrom(ident, true), SnakeFrom(ident[1..], false);
      CamelOfSnakeTail(ident[1..]);
      assert ident == [ident[0]] + ident[1..];
      assert snake[1..] == tail;
    }
  }

  /** Two camel-case names with the same field name are the same. */
  lemma {:induction false} SnakeIsInjective(a: string, b: string)
    requires IsCamel(a) && IsCamel(b)
    ensures SnakeFrom(a, true) == SnakeFrom(b, true) <==> a == b
  {
    SnakeIsInvertibleIff(a);
    SnakeIsInvertibleIff(b);
  }

  /** Camel case is needed on both sides: a name that starts small shares its field with the name that starts
      with the capital. */
  lemma {:induction false} SmallStartCollides(ident: string)
    requires ident != "" && 'a' <= ident[0] <= 'z'
    ensures
      var capital := [ToUpper(ident[0])] + ident[1..];
      capital != ident && SnakeFrom(capital, true) == SnakeFrom(ident, true)
  {
    var capital := [ToUpper(ident[0])] + ident[1..];
    assert capital[1..] == ident[1..];
    assert capital[0] != ident[0];
  }

  /** For plain camel-case backends the declared context fields are pairwise distinct. */
  lemma {:induction false} ContextFieldsAreDistinct(hosts: seq<Host>)
    requires forall i :: 0 <= i < |hosts| ==> |hosts[i].backend| == 1 && IsCamel(hosts[i].backend[0])
    ensures
      var kept := KeptBackends(hosts);
      forall i, j :: 0 <= i < j < |kept| ==> kept[i] != kept[j] && Field(kept[i]) != Field(kept[j])
  {
    var kept := KeptBackends(hosts);
    forall i, j | 0 <= i < j < |kept| ensures kept[i] != kept[j] && Field(kept[i]) != Field(kept[j]) {
      KeptIff(hosts, kept[i]);
      KeptIff(hosts, kept[j]);
      assert kept[i] in kept && kept[j] in kept;
      NoLong(hosts);
      SnakeIsInjective(kept[i][0], kept[j][0]);
    }
  }

  lemma {:induction false} NoLong(hosts: seq<Host>)
    requires forall i :: 0 <= i < |hosts| ==> |hosts[i].backend| == 1
    ensures FirstLong(hosts) == None
  {
    if hosts != [] {
      NoLong(hosts[..|hosts| - 1]);
    }
  }

  /** Two long paths: the second is dropped and its reference dangles. */
  lemma {:induction false} SecondLongPathDangles()
    ensures
      var first := Host(["WasiSql"], ["azure", "Client"]);
      var second := Host(["WasiVault"], ["vault", "Store"]);
      !Resolves([first, second], second)
  {
    var first := Host(["WasiSql"], ["azure", "Client"]);
    var second := Host(["WasiVault"], ["vault", "Store"]);
    var hosts := [first, second];
    assert hosts[..1] == [first] && hosts[..1][..0] == [];
    assert FirstLong(hosts[..1]) == Some(first.backend);
    ResolvesIff(hosts, second);
    assert Field(first.backend)[0] == 'c' && Field(second.backend)[0] == 's';
  }
}
