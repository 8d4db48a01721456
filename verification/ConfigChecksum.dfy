/** `std::string` as bytes, and the order `std::map` walks its keys in. */
module ByteStrings {
  import opened Bytes

  type String = seq<byte>

  predicate Less(a: String, b: String) {
    b != [] && (a == [] || a[0] < b[0] || (a[0] == b[0] && Less(a[1..], b[1..])))
  }

  lemma {:induction false} LessTotal(a: String, b: String)
    ensures a == b || Less(a, b) || Less(b, a)
    ensures !(Less(a, b) && Less(b, a)) && !Less(a, a)
  {
    if a != [] {
      if b != [] {
        LessTotal(a[1..], b[1..]);
        assert a == [a[0]] + a[1..] && b == [b[0]] + b[1..];
      }
      LessTotal(a[1..], a[1..]);
    }
  }

  /** The order of `std::string`: a proper prefix comes first, and otherwise the first byte in
      which the two differ decides. */
  lemma {:induction false} LessIs(a: String, b: String)
    ensures Less(a, b) <==> (a <= b && a != b) || exists i: nat :: Differ(a, b, i) && a[i] < b[i]
  {
    if a != [] && b != [] && a[0] == b[0] {
      LessIs(a[1..], b[1..]);
      assert a == [a[0]] + a[1..] && b == [b[0]] + b[1..];
      forall i: nat | Differ(a, b, i) ensures i > 0 && Differ(a[1..], b[1..], i - 1) {
        assert a[1..][..i - 1] == a[..i][1..] && b[1..][..i - 1] == b[..i][1..];
      }
      forall i: nat | Differ(a[1..], b[1..], i) ensures Differ(a, b, i + 1) {
        assert a[..i + 1] == [a[0]] + a[1..][..i] && b[..i + 1] == [b[0]] + b[1..][..i];
      }
      if Less(a, b) && !(a <= b && a != b) {
        var i: nat :| Differ(a[1..], b[1..], i) && a[1..][i] < b[1..][i];
        assert Differ(a, b, i + 1) && a[i + 1] < b[i + 1];
      }
    } else if a != [] && b != [] {
      assert Differ(a, b, 0);
      assert forall i: nat :: Differ(a, b, i) ==> i == 0;
    }
  }

  /** The first place where two strings differ. */
  predicate Differ(a: String, b: String, i: nat) {
    i < |a| && i < |b| && a[..i] == b[..i] && a[i] != b[i]
  }

  lemma {:induction false} LessTransitive(a: String, b: String, c: String)
    requires Less(a, b) && Less(b, c)
    ensures Less(a, c)
  {
    if a != [] && a[0] == b[0] && b[0] == c[0] {
      LessTransitive(a[1..], b[1..], c[1..]);
    }
  }

  ghost predicate IsFirst(keys: set<String>, k: String) {
    k in keys && forall x :: x in keys && x != k ==> Less(k, x)
  }

  /** Every non-empty set of keys has exactly one first key. */
  lemma {:induction false} FirstExists(keys: set<String>)
    requires keys != {}
    ensures exists k :: IsFirst(keys, k)
    decreases |keys|
  {
    var x :| x in keys;
    var rest := keys - {x};
    assert keys == rest + {x};
    if rest == {} {
      assert IsFirst(keys, x);
    } else {
      FirstExists(rest);
      var y :| IsFirst(rest, y);
      LessTotal(x, y);
      if Less(x, y) {
        forall z | z in keys && z != x ensures Less(x, z) {
          if z != y { LessTransitive(x, y, z); }
        }
        assert IsFirst(keys, x);
      } else {
        assert IsFirst(keys, y);
      }
    }
  }

  lemma FirstUnique(keys: set<String>, j: String, k: String)
    requires IsFirst(keys, j) && IsFirst(keys, k)
    ensures j == k
  {
    LessTotal(j, k);
  }
}

/** The configuration file as `IsConfigValid` and `ConfigGetCksum` see it. */
module ConfigChecksum {
  import opened Basics
  import opened Bytes
  import opened TxtNumber
  import opened ByteStrings

  /** A child of a module element. `known` says that its tag is CACHEINSTANCE, `whole` that both
      attributes are there. */
  datatype Instance = Instance(known: bool, whole: bool, name: String, addr: String)

  /** A child of BUSINESS_MODULE. `known` says that its tag is MODULE, `whole` that both
      attributes are there. */
  datatype Module = Module(known: bool, whole: bool, id: String, listenOn: String, instances: seq<Instance>)

  type Config = seq<Module>

  /** `atoi`: white space, a sign, then digits. */
  function Atoi(s: String): int {
    if s != [] && IsSpace(s[0]) then Atoi(s[1..])
    else if s != [] && s[0] == 45 then -AtoiDigits(s[1..], 0)
    else if s != [] && s[0] == 43 then AtoiDigits(s[1..], 0)
    else AtoiDigits(s, 0)
  }

  function AtoiDigits(s: String, acc: int): int {
    if s == [] || !(48 <= s[0] <= 57) then acc else AtoiDigits(s[1..], 10 * acc + s[0] - 48)
  }

  /** `atoi` reads digits from the left, stops at anything else, takes one sign and skips white
      space in front. */
  lemma AtoiTexts(s: String, d: nat)
    requires d < 10
    ensures Atoi([]) == 0
    ensures forall x: byte :: x in {9, 10, 11, 12, 13, 32} ==> Atoi([x] + s) == Atoi(s)
    ensures Atoi([45] + s) == 0 - AtoiDigits(s, 0) && Atoi([43] + s) == AtoiDigits(s, 0)
    ensures Atoi([48 + d] + s) == AtoiDigits([48 + d] + s, 0)
  {
    assert forall x: byte :: ([x] + s)[1..] == s;
  }

  /** Digits with anything behind them that is no digit. */
  lemma {:induction false} AtoiOfDigits(s: String, rest: String, acc: nat)
    requires forall c :: c in s ==> 48 <= c <= 57
    requires rest == [] || rest[0] < 48 || rest[0] > 57
    ensures AtoiDigits(s + rest, acc) == AtoiDigits(s, acc)
  {
    if s == [] {
      assert s + rest == rest;
    } else {
      assert (s + rest)[1..] == s[1..] + rest && s[0] in s;
      assert forall c :: c in s[1..] ==> c in s;
      AtoiOfDigits(s[1..], rest, 10 * acc + s[0] - 48);
    }
  }

  lemma {:induction false} AtoiOneMore(s: String, d: nat, acc: nat)
    requires d < 10 && forall c :: c in s ==> 48 <= c <= 57
    ensures AtoiDigits(s + [48 + d], acc) == 10 * AtoiDigits(s, acc) + d
  {
    if s == [] {
      assert s + [48 + d] == [48 + d] && [48 + d][1..] == [];
    } else {
      assert (s + [48 + d])[1..] == s[1..] + [48 + d] && s[0] in s;
      assert forall c :: c in s[1..] ==> c in s;
      AtoiOneMore(s[1..], d, 10 * acc + s[0] - 48);
    }
  }

  /** Every printed number is read back, with anything behind it that is no digit. */
  lemma AtoiDecimal(z: int, rest: String)
    requires rest == [] || rest[0] < 48 || rest[0] > 57
    ensures Atoi(SignedDecimal(z) + rest) == z
  {
    hide Decimal, AtoiDigits, Atoi;
    var m := if z < 0 then -z else z;
    var d := Decimal(m);
    DecimalDigits(m);
    AtoiOfDecimal(m);
    AtoiOfDigits(d, rest, 0);
    assert d[0] in d && (d + rest)[0] == d[0];
    AtoiFront(d + rest);
    assert z < 0 ==> SignedDecimal(z) + rest == [45] + (d + rest);
  }

  lemma AtoiFront(s: String)
    requires s != [] && 48 <= s[0] <= 57
    ensures Atoi(s) == AtoiDigits(s, 0) && Atoi([45] + s) == 0 - AtoiDigits(s, 0)
  {
    hide AtoiDigits;
    assert ([45] + s)[1..] == s;
  }

  lemma {:induction false} AtoiOfDecimal(n: nat)
    ensures AtoiDigits(Decimal(n), 0) == n
  {
    if n >= 10 {
      AtoiOfDecimal(n / 10);
      DecimalDigits(n / 10);
      AtoiOneMore(Decimal(n / 10), n % 10, 0);
    } else {
      assert [48 + n][1..] == [];
    }
  }

  // ---------------------------------------------------------------- validation

  /** CACHEINSTANCE elements of a module have their attributes and no two share a name. */
  ghost predicate NamesDistinct(instances: seq<Instance>) {
    && (forall i :: 0 <= i < |instances| && instances[i].known ==> instances[i].whole)
    && forall i, j :: 0 <= i < j < |instances| && instances[i].known && instances[j].known ==>
      instances[i].name != instances[j].name
  }

  /** MODULE elements have their attributes and no two share an id, as a number, or a listen address. */
  ghost predicate ModulesDistinct(c: Config) {
    && (forall i :: 0 <= i < |c| && c[i].known ==> c[i].whole)
    && forall i, j :: 0 <= i < j < |c| && c[i].known && c[j].known ==>
      Atoi(c[i].id) != Atoi(c[j].id) && c[i].listenOn != c[j].listenOn
  }

  ghost predicate Valid(c: Config) {
    ModulesDistinct(c) && forall i :: 0 <= i < |c| && c[i].known ==> NamesDistinct(c[i].instances)
  }

  predicate SameName(s: Instance, t: Instance) { s.known && t.known && s.name == t.name }

  /** What validation refuses: a missing attribute, one id written in two ways, one listen address
      twice, one instance name twice. */
  lemma RefusedConfigs(c: Config, i: nat, j: nat, p: nat, q: nat)
    requires i < |c| && c[i].known
    ensures !c[i].whole ==> !Valid(c)
    ensures j < |c| && i != j && c[j].known && Atoi(c[i].id) == Atoi(c[j].id) ==> !Valid(c)
    ensures j < |c| && i != j && c[j].known && c[i].listenOn == c[j].listenOn ==> !Valid(c)
    ensures p < |c[i].instances| && c[i].instances[p].known && !c[i].instances[p].whole ==> !Valid(c)
    ensures p < q < |c[i].instances| && SameName(c[i].instances[p], c[i].instances[q]) ==> !Valid(c)
  {
    hide Atoi;
    if Valid(c) {
      assert NamesDistinct(c[i].instances);
    }
  }

  /** Elements and children with other tags are not looked at. */
  lemma OthersNotValidated(c: Config, x: Module)
    requires !x.known
    ensures Valid(c + [x]) <==> Valid(c)
    ensures Valid([])
  {
    hide Atoi;
    var d := c + [x];
    assert forall i :: 0 <= i < |c| ==> d[i] == c[i];
    if Valid(d) {
      forall i | 0 <= i < |c| && c[i].known ensures c[i].whole && NamesDistinct(c[i].instances) {
        assert d[i] == c[i];
      }
      forall i, j | 0 <= i < j < |c| && c[i].known && c[j].known
        ensures Atoi(c[i].id) != Atoi(c[j].id) && c[i].listenOn != c[j].listenOn
      {
        assert d[i] == c[i] && d[j] == c[j];
      }
    }
  }

  /** `IsModuleValid` */
  method IsModuleValid(instances: seq<Instance>) returns (ok: bool)
    ensures ok <==> NamesDistinct(instances)
  {
    var names: set<String> := {};
    for i := 0 to |instances|
      invariant names == set j | 0 <= j < i && instances[j].known :: instances[j].name
      invariant NamesDistinct(instances[..i])
    {
      if instances[i].known {
        if !instances[i].whole {
          return false;
        }
        if instances[i].name in names {
          ghost var j :| 0 <= j < i && instances[j].known && instances[j].name == instances[i].name;
          return false;
        }
        names := names + {instances[i].name};
      }
      assert forall j :: 0 <= j < i ==> instances[..i + 1][j] == instances[..i][j];
    }
    assert instances[..|instances|] == instances;
    ok := true;
  }

  /** `IsConfigValid` */
  method IsConfigValid(c: Config) returns (ok: bool)
    ensures ok <==> Valid(c)
  {
    hide Atoi;
    var ids: set<int>, addrs: set<String> := {}, {};
    for i := 0 to |c|
      invariant forall j :: 0 <= j < i && c[j].known ==> c[j].whole
      invariant ids == set j | 0 <= j < i && c[j].known :: Atoi(c[j].id)
      invariant addrs == set j | 0 <= j < i && c[j].known :: c[j].listenOn
      invariant forall j, k :: 0 <= j < k < i && c[j].known && c[k].known ==>
        Atoi(c[j].id) != Atoi(c[k].id) && c[j].listenOn != c[k].listenOn
      invariant forall j :: 0 <= j < i && c[j].known ==> NamesDistinct(c[j].instances)
    {
      if c[i].known {
        if !c[i].whole {
          return false;
        }
        if Atoi(c[i].id) in ids {
          ghost var j :| 0 <= j < i && c[j].known && Atoi(c[j].id) == Atoi(c[i].id);
          return false;
        }
        if c[i].listenOn in addrs {
          ghost var j :| 0 <= j < i && c[j].known && c[j].listenOn == c[i].listenOn;
          return false;
        }
        ids, addrs := ids + {Atoi(c[i].id)}, addrs + {c[i].listenOn};
        var fine := IsModuleValid(c[i].instances);
        if !fine {
          return false;
        }
      }
    }
    ok := true;
  }

  // ---------------------------------------------------------------- the maps behind the checksum

  datatype Entry = Entry(listenOn: String, servers: map<String, String>)

  /** `item.servers[name] = addr` for every child, whatever its tag: the last one wins. */
  function AddInstances(m: map<String, String>, instances: seq<Instance>): map<String, String> {
    if instances == [] then m
    else
      var k := |instances| - 1;
      AddInstances(m, instances[..k])[instances[k].name := instances[k].addr]
  }

  function Servers(m: map<String, Entry>, id: String): map<String, String> {
    if id in m then m[id].servers else map[]
  }

  /** `moduleMap[id]` for every child, whatever its tag: same ids are merged. */
  function Build(c: Config): map<String, Entry> {
    if c == [] then map[]
    else
      var m, x := Build(c[..|c| - 1]), c[|c| - 1];
      m[x.id := Entry(x.listenOn, AddInstances(Servers(m, x.id), x.instances))]
  }

  /** The bytes fed to MD5: the maps walked in key order. */
  ghost function FeedServers(m: map<String, String>): seq<byte>
    decreases |m|
  {
    if m == map[] then []
    else
      FirstExists(m.Keys);
      var k :| IsFirst(m.Keys, k);
      assert |m - {k}| < |m| by { assert (m - {k}).Keys == m.Keys - {k}; }
      k + m[k] + FeedServers(m - {k})
  }

  ghost function Feed(m: map<String, Entry>): seq<byte>
    decreases |m|
  {
    if m == map[] then []
    else
      FirstExists(m.Keys);
      var k :| IsFirst(m.Keys, k);
      assert |m - {k}| < |m| by { assert (m - {k}).Keys == m.Keys - {k}; }
      k + m[k].listenOn + FeedServers(m[k].servers) + Feed(m - {k})
  }

  // ---------------------------------------------------------------- order

  /** A module without the order of its children. */
  datatype Canon = Canon(known: bool, whole: bool, id: String, listenOn: String, instances: multiset<Instance>)

  function CanonOf(m: Module): Canon { Canon(m.known, m.whole, m.id, m.listenOn, multiset(m.instances)) }

  function Canons(c: Config): (r: seq<Canon>)
    ensures |r| == |c| && forall i :: 0 <= i < |c| ==> r[i] == CanonOf(c[i])
  {
    seq(|c|, i requires 0 <= i < |c| => CanonOf(c[i]))
  }

  /** The same modules in any order, each with the same children in any order. */
  predicate Shuffled(c: Config, d: Config) { multiset(Canons(c)) == multiset(Canons(d)) }

  /** Two elements agree: with the same id they have the same listen address, and children with
      the same name have the same address. */
  ghost predicate Agree(x: Module, y: Module) {
    x.id == y.id ==>
      && x.listenOn == y.listenOn
      && forall s, t :: s in x.instances && t in y.instances && s.name == t.name ==> s.addr == t.addr
  }

  ghost predicate NoConflict(c: Config) {
    forall x, y :: x in c && y in c ==> Agree(x, y)
  }

  /** The map says what the element says. */
  ghost predicate Says(m: map<String, Entry>, x: Module) {
    && x.id in m && m[x.id].listenOn == x.listenOn
    && forall s :: s in x.instances ==> s.name in m[x.id].servers && m[x.id].servers[s.name] == s.addr
  }

  /** Some element of the configuration has this id, and this child. */
  ghost predicate HasId(c: Config, id: String) { exists x :: x in c && x.id == id }
  ghost predicate HasName(x: Module, n: String) { exists s :: s in x.instances && s.name == n }
  ghost predicate HasChild(c: Config, id: String, n: String) { exists x :: x in c && x.id == id && HasName(x, n) }

  /** The map says what every element says, and nothing else. */
  ghost predicate Reflects(c: Config, m: map<String, Entry>) {
    && (forall x :: x in c ==> Says(m, x))
    && (forall id :: id in m ==> HasId(c, id))
    && (forall id, n :: id in m && n in m[id].servers ==> HasChild(c, id, n))
  }

  lemma {:induction false} AddInstancesAt(m: map<String, String>, instances: seq<Instance>, n: String)
    ensures var r := AddInstances(m, instances);
      && (n in r <==> n in m || exists s :: s in instances && s.name == n)
      && (n in r ==> (n in m && r[n] == m[n]) || exists s :: s in instances && s.name == n && r[n] == s.addr)
    ensures (exists s :: s in instances && s.name == n) ==>
      var r := AddInstances(m, instances);
      exists s :: s in instances && s.name == n && n in r && r[n] == s.addr
  {
    if instances != [] {
      var k := |instances| - 1;
      var init, last := instances[..k], instances[k];
      AddInstancesAt(m, init, n);
      assert instances == init + [last];
      assert last in instances;
      assert forall s :: s in instances <==> s in init || s == last;
    }
  }

  /** One more element that agrees with those before it. */
  lemma AddSays(m: map<String, Entry>, y: Module, x: Module)
    requires Agree(x, x) && (y == x || (Agree(x, y) && Says(m, y)))
    ensures Says(m[x.id := Entry(x.listenOn, AddInstances(Servers(m, x.id), x.instances))], y)
  {
    hide AddInstances;
    if y.id == x.id {
      var old' := Servers(m, x.id);
      forall s | s in y.instances
        ensures s.name in AddInstances(old', x.instances) && AddInstances(old', x.instances)[s.name] == s.addr
      {
        AddInstancesAt(old', x.instances, s.name);
      }
    }
  }

  lemma AddReflects(c: Config, m: map<String, Entry>, x: Module)
    requires Reflects(c, m) && NoConflict(c + [x])
    ensures Reflects(c + [x], m[x.id := Entry(x.listenOn, AddInstances(Servers(m, x.id), x.instances))])
  {
    hide AddInstances, Says, Agree, HasName;
    var d, m' := c + [x], m[x.id := Entry(x.listenOn, AddInstances(Servers(m, x.id), x.instances))];
    assert forall y :: y in d <==> y in c || y == x;
    assert x in d;
    forall y | y in d ensures Says(m', y) {
      assert Agree(x, x) && Agree(x, y);
      AddSays(m, y, x);
    }
    forall id | id in m' ensures HasId(d, id) {
      if id in m {
        assert HasId(c, id);
      }
    }
    forall id, n | id in m' && n in m'[id].servers ensures HasChild(d, id, n) {
      if id in m && n in m[id].servers {
        assert HasChild(c, id, n);
      } else {
        AddInstancesAt(Servers(m, x.id), x.instances, n);
        NameFrom(x, n);
      }
    }
  }

  lemma NameFrom(x: Module, n: String)
    ensures (exists s :: s in x.instances && s.name == n) ==> HasName(x, n)
  {
  }

  /** Without conflicts the map reflects the configuration. */
  lemma {:induction false} BuildReflects(c: Config)
    requires NoConflict(c)
    ensures Reflects(c, Build(c))
  {
    hide Reflects, Agree;
    if c == [] {
      EmptyReflects();
    } else {
      var init, x := c[..|c| - 1], c[|c| - 1];
      assert c == init + [x];
      assert NoConflict(init) by { assert forall y :: y in init ==> y in c; }
      BuildReflects(init);
      AddReflects(init, Build(init), x);
    }
  }

  lemma EmptyReflects()
    ensures Reflects([], map[])
  {
  }

  /** Only one map reflects a configuration. */
  lemma ReflectsOnce(c: Config, m: map<String, Entry>, n: map<String, Entry>)
    requires Reflects(c, m) && Reflects(c, n)
    ensures m == n
  {
    assert m.Keys == n.Keys by { SameIds(c, m, n); SameIds(c, n, m); }
    forall id | id in m ensures m[id] == n[id] {
      assert HasId(c, id);
      var x :| x in c && x.id == id;
      assert Says(m, x) && Says(n, x);
      SameServers(c, m, n, id);
      SameServers(c, n, m, id);
      assert m[id].servers.Keys == n[id].servers.Keys;
    }
  }

  lemma SameIds(c: Config, m: map<String, Entry>, n: map<String, Entry>)
    requires Reflects(c, m) && Reflects(c, n)
    ensures m.Keys <= n.Keys
  {
    forall id | id in m ensures id in n {
      assert HasId(c, id);
      var x :| x in c && x.id == id;
      assert Says(n, x);
    }
  }

  lemma SameServers(c: Config, m: map<String, Entry>, n: map<String, Entry>, id: String)
    requires Reflects(c, m) && Reflects(c, n) && id in m && id in n
    ensures forall k :: k in m[id].servers ==> k in n[id].servers && m[id].servers[k] == n[id].servers[k]
  {
    forall k | k in m[id].servers ensures k in n[id].servers && m[id].servers[k] == n[id].servers[k] {
      assert HasChild(c, id, k);
      var x :| x in c && x.id == id && HasName(x, k);
      var s :| s in x.instances && s.name == k;
      assert Says(m, x) && Says(n, x);
    }
  }

  // ---------------------------------------------------------------- shuffling

  /** An element of one configuration has its counterpart in any shuffle of it. */
  lemma Counterpart(c: Config, d: Config, x: Module) returns (y: Module)
    requires Shuffled(c, d) && x in c
    ensures y in d && CanonOf(y) == CanonOf(x)
    ensures forall s :: s in x.instances <==> s in y.instances
  {
    var i :| 0 <= i < |c| && c[i] == x;
    assert Canons(c)[i] in multiset(Canons(c));
    assert CanonOf(x) in Canons(d);
    var j :| 0 <= j < |d| && Canons(d)[j] == CanonOf(x);
    y := d[j];
    forall s ensures s in x.instances <==> s in y.instances {
      assert s in x.instances <==> s in multiset(x.instances);
      assert s in y.instances <==> s in multiset(y.instances);
    }
  }

  lemma SameSays(m: map<String, Entry>, x: Module, y: Module)
    requires CanonOf(x) == CanonOf(y) && (forall s :: s in x.instances <==> s in y.instances)
    ensures Says(m, x) <==> Says(m, y)
    ensures forall n :: HasName(x, n) <==> HasName(y, n)
  {
    forall n ensures HasName(x, n) <==> HasName(y, n) {}
  }

  lemma ShuffledReflects(c: Config, d: Config, m: map<String, Entry>)
    requires Shuffled(c, d) && Reflects(c, m)
    ensures Reflects(d, m)
  {
    hide Says, HasName, CanonOf;
    assert Shuffled(d, c);
    forall y | y in d ensures Says(m, y) {
      var x := Counterpart(d, c, y);
      SameSays(m, x, y);
    }
    forall id | id in m ensures HasId(d, id) {
      assert HasId(c, id);
      var x :| x in c && x.id == id;
      var y := Counterpart(c, d, x);
      assert y.id == id by { CanonId(x, y); }
    }
    forall id, n | id in m && n in m[id].servers ensures HasChild(d, id, n) {
      assert HasChild(c, id, n);
      var x :| x in c && x.id == id && HasName(x, n);
      var y := Counterpart(c, d, x);
      SameSays(m, x, y);
      assert y.id == id by { CanonId(x, y); }
    }
  }

  lemma CanonId(x: Module, y: Module)
    requires CanonOf(x) == CanonOf(y)
    ensures x.id == y.id && x.listenOn == y.listenOn
  {
  }

  lemma ShuffledNoConflict(c: Config, d: Config)
    requires Shuffled(c, d) && NoConflict(c)
    ensures NoConflict(d)
  {
    assert Shuffled(d, c);
    forall x, y | x in d && y in d ensures Agree(x, y) {
      var x' := Counterpart(d, c, x);
      var y' := Counterpart(d, c, y);
      assert Agree(x', y');
    }
  }

  /** Without conflicts, every shuffle of the configuration feeds the same bytes to MD5. */
  lemma OrderInsensitive(c: Config, d: Config)
    requires NoConflict(c) && Shuffled(c, d)
    ensures Build(d) == Build(c) && Feed(Build(d)) == Feed(Build(c))
  {
    hide NoConflict, Reflects, Shuffled, Build;
    BuildReflects(c);
    ShuffledReflects(c, d, Build(c));
    ShuffledNoConflict(c, d);
    BuildReflects(d);
    ReflectsOnce(d, Build(c), Build(d));
  }

  /** Validation rules conflicts out when every element has the tag it looks at. */
  lemma ValidHasNoConflict(c: Config)
    requires Valid(c)
    requires forall x :: x in c ==> x.known && forall s :: s in x.instances ==> s.known
    ensures NoConflict(c)
  {
    hide Atoi;
    forall x, y | x in c && y in c ensures Agree(x, y) {
      var i :| 0 <= i < |c| && c[i] == x;
      var j :| 0 <= j < |c| && c[j] == y;
      if x.id == y.id {
        assert c[i].known && c[j].known;
        assert i == j;
        assert NamesDistinct(c[i].instances);
        forall s, t | s in x.instances && t in y.instances && s.name == t.name ensures s.addr == t.addr {
          var p :| 0 <= p < |x.instances| && x.instances[p] == s;
          var q :| 0 <= q < |x.instances| && x.instances[q] == t;
          assert s.known && t.known;
          assert p == q;
        }
      }
    }
  }

  // ---------------------------------------------------------------- conflicts show

  /** Element `i`, possibly with its children reordered, moved to the end. */
  function MoveLast(c: Config, i: nat, x: Module): Config
    requires i < |c|
  {
    c[..i] + c[i + 1..] + [x]
  }

  lemma MoveLastShuffles(c: Config, i: nat, x: Module)
    requires i < |c| && CanonOf(x) == CanonOf(c[i])
    ensures Shuffled(c, MoveLast(c, i, x))
  {
    hide CanonOf;
    var k, d := Canons(c), MoveLast(c, i, x);
    assert k == k[..i] + [k[i]] + k[i + 1..];
    assert Canons(d) == k[..i] + k[i + 1..] + [k[i]];
    assert multiset(k) == multiset(k[..i]) + multiset{k[i]} + multiset(k[i + 1..]);
  }

  lemma LastWins(c: Config, x: Module)
    ensures x.id in Build(c + [x]) && Build(c + [x])[x.id].listenOn == x.listenOn
    ensures forall s :: x.instances != [] && s == x.instances[|x.instances| - 1] ==>
      s.name in Build(c + [x])[x.id].servers && Build(c + [x])[x.id].servers[s.name] == s.addr
  {
    assert (c + [x])[..|c + [x]| - 1] == c;
  }

  /** The element with one child moved behind its siblings. */
  function ChildLast(x: Module, p: nat): Module
    requires p < |x.instances|
  {
    x.(instances := x.instances[..p] + x.instances[p + 1..] + [x.instances[p]])
  }

  lemma ChildLastCanon(x: Module, p: nat)
    requires p < |x.instances|
    ensures CanonOf(ChildLast(x, p)) == CanonOf(x)
  {
    var v := x.instances;
    assert v == v[..p] + [v[p]] + v[p + 1..];
  }

  /** With a conflict, two shuffles of the configuration give different maps. */
  lemma ConflictOrderSensitive(c: Config)
    requires !NoConflict(c)
    ensures exists d, e :: Shuffled(c, d) && Shuffled(c, e) && Build(d) != Build(e)
  {
    hide Shuffled, Build, CanonOf;
    var x, y :| x in c && y in c && !Agree(x, y);
    var i :| 0 <= i < |c| && c[i] == x;
    var j :| 0 <= j < |c| && c[j] == y;
    var x', y' := x, y;
    if x.listenOn == y.listenOn {
      var s, t :| s in x.instances && t in y.instances && s.name == t.name && s.addr != t.addr;
      var p :| 0 <= p < |x.instances| && x.instances[p] == s;
      var q :| 0 <= q < |y.instances| && y.instances[q] == t;
      x', y' := ChildLast(x, p), ChildLast(y, q);
      ChildLastCanon(x, p);
      ChildLastCanon(y, q);
    }
    MoveLastShuffles(c, i, x');
    MoveLastShuffles(c, j, y');
    LastWins(c[..i] + c[i + 1..], x');
    LastWins(c[..j] + c[j + 1..], y');
    assert Build(MoveLast(c, i, x')) != Build(MoveLast(c, j, y'));
  }

  /** The map that is walked is independent of the order exactly when there is no conflict. */
  lemma OrderInsensitiveExactly(c: Config)
    ensures NoConflict(c) <==> forall d, e :: Shuffled(c, d) && Shuffled(c, e) ==> Build(d) == Build(e)
  {
    hide NoConflict, Shuffled, Build;
    if NoConflict(c) {
      forall d, e | Shuffled(c, d) && Shuffled(c, e) ensures Build(d) == Build(e) {
        OrderInsensitive(c, d);
        OrderInsensitive(c, e);
      }
    } else {
      ConflictOrderSensitive(c);
    }
  }

  // ---------------------------------------------------------------- when conflicts show in the bytes

  lemma Cancel(a: seq<byte>, b: seq<byte>, b': seq<byte>, c: seq<byte>)
    ensures a + b + c == a + b' + c <==> b == b'
  {
    if a + b + c == a + b' + c {
      assert |b| == |b'|;
      assert b == (a + b + c)[|a|..|a| + |b|] && b' == (a + b' + c)[|a|..|a| + |b'|];
    }
  }

  /** Changing the address of one server changes the bytes. */
  lemma {:induction false} OneServerShows(m: map<String, String>, k: String, v: String)
    requires k in m
    ensures FeedServers(m) == FeedServers(m[k := v]) <==> m[k] == v
    decreases |m|
  {
    hide FeedServers, Less;
    var n := m[k := v];
    assert n.Keys == m.Keys;
    FirstExists(m.Keys);
    var j :| IsFirst(m.Keys, j);
    FeedServersStep(m, j);
    FeedServersStep(n, j);
    if j == k {
      assert n - {k} == m - {k};
      Cancel(k, m[k], v, FeedServers(m - {k}));
    } else {
      assert n - {j} == (m - {j})[k := v];
      OneServerShows(m - {j}, k, v);
      CancelFront(j + m[j], FeedServers(m - {j}), FeedServers(n - {j}));
    }
  }

  lemma CancelFront(a: seq<byte>, b: seq<byte>, b': seq<byte>)
    ensures a + b == a + b' <==> b == b'
  {
    assert b == (a + b)[|a|..] && b' == (a + b')[|a|..];
  }

  /** What an entry adds to the bytes behind its id. */
  ghost function EntryBytes(e: Entry): seq<byte> { e.listenOn + FeedServers(e.servers) }

  /** Changing one entry changes the bytes exactly when it changes what the entry adds. */
  lemma {:induction false} OneEntryShows(m: map<String, Entry>, k: String, e: Entry)
    requires k in m
    ensures Feed(m) == Feed(m[k := e]) <==> EntryBytes(m[k]) == EntryBytes(e)
    decreases |m|
  {
    hide Feed, FeedServers, Less, EntryBytes;
    var n := m[k := e];
    assert n.Keys == m.Keys;
    FirstExists(m.Keys);
    var j :| IsFirst(m.Keys, j);
    FeedEntry(m, j);
    FeedEntry(n, j);
    if j == k {
      assert n - {k} == m - {k};
      Cancel(k, EntryBytes(m[k]), EntryBytes(e), Feed(m - {k}));
    } else {
      assert n - {j} == (m - {j})[k := e];
      OneEntryShows(m - {j}, k, e);
      CancelFront(j + EntryBytes(m[j]), Feed(m - {j}), Feed(n - {j}));
    }
  }

  lemma FeedEntry(m: map<String, Entry>, k: String)
    requires IsFirst(m.Keys, k)
    ensures Feed(m) == k + EntryBytes(m[k]) + Feed(m - {k}) && |m - {k}| < |m|
  {
    hide Feed, FeedServers;
    FeedStep(m, k);
    var l, f, r := m[k].listenOn, FeedServers(m[k].servers), Feed(m - {k});
    assert k + l + f + r == k + (l + f) + r;
  }

  /** The address the children give a name: that of the last one. */
  function LastOf(instances: seq<Instance>, n: String): Option<String> {
    if instances == [] then None
    else
      var k := |instances| - 1;
      if instances[k].name == n then Some(instances[k].addr) else LastOf(instances[..k], n)
  }

  lemma {:induction false} LastOfFound(instances: seq<Instance>, n: String)
    ensures match LastOf(instances, n)
      case None => forall s :: s in instances ==> s.name != n
      case Some(a) => exists s :: s in instances && s.name == n && s.addr == a
  {
    if instances != [] {
      var k := |instances| - 1;
      var init, last := instances[..k], instances[k];
      assert instances == init + [last];
      assert last in instances && forall s :: s in instances <==> s in init || s == last;
      LastOfFound(init, n);
    }
  }

  lemma {:induction false} AddedAt(m: map<String, String>, instances: seq<Instance>, n: String)
    ensures var r := AddInstances(m, instances);
      match LastOf(instances, n)
      case None => (n in r <==> n in m) && (n in m ==> r[n] == m[n])
      case Some(a) => n in r && r[n] == a
  {
    if instances != [] {
      AddedAt(m, instances[..|instances| - 1], n);
    }
  }

  /** No two children give one name two addresses. */
  ghost predicate Consistent(x: Module) {
    forall s, t :: s in x.instances && t in x.instances && s.name == t.name ==> s.addr == t.addr
  }

  /** The children of two elements that have the name `n` have one address. */
  ghost predicate AgreeOn(x: Module, y: Module, n: String) {
    forall s, t :: s in x.instances && t in y.instances && s.name == t.name == n ==> s.addr == t.addr
  }

  /** Two elements with one id disagree in a single value: the listen address or that of one name. */
  ghost predicate DisagreeOnce(x: Module, y: Module) {
    && x.id == y.id
    && if x.listenOn != y.listenOn then forall n :: AgreeOn(x, y, n)
       else exists n :: !AgreeOn(x, y, n) && forall k :: k != n ==> AgreeOn(x, y, k)
  }

  /** What the element at the end of a configuration leaves in the map. */
  lemma LastEntry(r: Config, x: Module)
    ensures Build(r + [x]) ==
      Build(r)[x.id := Entry(x.listenOn, AddInstances(Servers(Build(r), x.id), x.instances))]
  {
    assert (r + [x])[..|r + [x]| - 1] == r;
  }

  /** Two elements with one id at the end: only their entry depends on which is last. */
  lemma LastTwoEntries(r: Config, x: Module, y: Module)
    requires x.id == y.id
    ensures var s := Servers(Build(r), x.id);
      Build(r + [x, y]) ==
        Build(r)[x.id := Entry(y.listenOn, AddInstances(AddInstances(s, x.instances), y.instances))]
  {
    hide Build, AddInstances;
    assert r + [x, y] == r + [x] + [y];
    LastEntry(r, x);
    LastEntry(r + [x], y);
  }

  /** Which of two elements is last shows exactly when it changes what their entry adds. */
  lemma SwapShows(r: Config, x: Module, y: Module)
    requires x.id == y.id
    ensures var s := Servers(Build(r), x.id);
      Feed(Build(r + [x, y])) == Feed(Build(r + [y, x])) <==>
        EntryBytes(Entry(y.listenOn, AddInstances(AddInstances(s, x.instances), y.instances))) ==
        EntryBytes(Entry(x.listenOn, AddInstances(AddInstances(s, y.instances), x.instances)))
  {
    hide Build, AddInstances, Feed, EntryBytes;
    LastTwoEntries(r, x, y);
    LastTwoEntries(r, y, x);
    var s, m := Servers(Build(r), x.id), Build(r + [x, y]);
    var e := Entry(x.listenOn, AddInstances(AddInstances(s, y.instances), x.instances));
    assert Build(r + [y, x]) == m[x.id := e];
    OneEntryShows(m, x.id, e);
  }

  /** The servers of two elements, added in both orders. */
  lemma AddedBoth(s: map<String, String>, x: Module, y: Module, n: String)
    requires Consistent(x) && Consistent(y)
    ensures var a := AddInstances(AddInstances(s, x.instances), y.instances);
      var b := AddInstances(AddInstances(s, y.instances), x.instances);
      (n in a <==> n in b) && (n in a ==> (a[n] == b[n] <==> AgreeOn(x, y, n)))
  {
    hide AddInstances, LastOf;
    AddedAt(s, x.instances, n);
    AddedAt(AddInstances(s, x.instances), y.instances, n);
    AddedAt(s, y.instances, n);
    AddedAt(AddInstances(s, y.instances), x.instances, n);
    LastOfFound(x.instances, n);
    LastOfFound(y.instances, n);
  }

  /** A disagreement in a single value shows, whatever comes before. */
  lemma SingleDisagreementShows(r: Config, x: Module, y: Module)
    requires Consistent(x) && Consistent(y) && DisagreeOnce(x, y)
    ensures Feed(Build(r + [x, y])) != Feed(Build(r + [y, x]))
  {
    hide Build, AddInstances, Feed, FeedServers, Consistent, AgreeOn;
    var s := Servers(Build(r), x.id);
    var a := AddInstances(AddInstances(s, x.instances), y.instances);
    var b := AddInstances(AddInstances(s, y.instances), x.instances);
    SwapShows(r, x, y);
    forall n ensures (n in a <==> n in b) && (n in a ==> (a[n] == b[n] <==> AgreeOn(x, y, n))) {
      AddedBoth(s, x, y, n);
    }
    if x.listenOn != y.listenOn {
      assert a == b;
      CancelBack(x.listenOn, y.listenOn, FeedServers(a));
    } else {
      var n :| !AgreeOn(x, y, n) && forall k :: k != n ==> AgreeOn(x, y, k);
      assert n in a by { NamedByBoth(s, x, y, n); }
      assert b == a[n := b[n]];
      OneServerShows(a, n, b[n]);
      CancelFront(x.listenOn, FeedServers(a), FeedServers(b));
    }
  }

  lemma CancelBack(a: seq<byte>, a': seq<byte>, b: seq<byte>)
    ensures a + b == a' + b <==> a == a'
  {
    if a + b == a' + b {
      assert |a| == |a'| && a == (a + b)[..|a|] && a' == (a' + b)[..|a'|];
    }
  }

  lemma NamedByBoth(s: map<String, String>, x: Module, y: Module, n: String)
    requires !AgreeOn(x, y, n)
    ensures n in AddInstances(AddInstances(s, x.instances), y.instances)
  {
    hide AddInstances, LastOf;
    AddedAt(AddInstances(s, x.instances), y.instances, n);
    LastOfFound(y.instances, n);
  }

  // ---------------------------------------------------------------- conflicts within an element

  lemma {:induction false} LastOfAppend(v: seq<Instance>, w: seq<Instance>, n: String)
    ensures LastOf(v + w, n) == if LastOf(w, n).Some? then LastOf(w, n) else LastOf(v, n)
  {
    if w == [] {
      assert v + w == v;
    } else {
      assert (v + w)[..|v + w| - 1] == v + w[..|w| - 1];
      LastOfAppend(v, w[..|w| - 1], n);
    }
  }

  lemma LastOfOne(s: Instance, n: String)
    ensures LastOf([s], n) == if s.name == n then Some(s.addr) else None
  {
    assert [s][..0] == [];
  }

  /** Moving a child last decides its name and no other. */
  lemma ChildLastDecides(x: Module, p: nat, n: String)
    requires p < |x.instances|
    ensures LastOf(ChildLast(x, p).instances, n) ==
      if n == x.instances[p].name then Some(x.instances[p].addr) else LastOf(x.instances, n)
  {
    hide LastOf;
    var v := x.instances;
    var a, b := v[..p], v[p + 1..];
    assert v == a + [v[p]] + b;
    LastOfAppend(a + b, [v[p]], n);
    LastOfAppend(a, b, n);
    LastOfAppend(a + [v[p]], b, n);
    LastOfAppend(a, [v[p]], n);
    LastOfOne(v[p], n);
  }

  /** Children of one element that give a name two addresses always show. */
  lemma ChildConflictShows(r: Config, x: Module, p: nat, q: nat)
    requires p < |x.instances| && q < |x.instances|
    requires x.instances[p].name == x.instances[q].name && x.instances[p].addr != x.instances[q].addr
    ensures Feed(Build(r + [ChildLast(x, p)])) != Feed(Build(r + [ChildLast(x, q)]))
  {
    hide Build, AddInstances, Feed, FeedServers, LastOf;
    var s, n := Servers(Build(r), x.id), x.instances[p].name;
    var a := AddInstances(s, ChildLast(x, p).instances);
    var b := AddInstances(s, ChildLast(x, q).instances);
    forall k ensures (k in a <==> k in b) && (k in a && k != n ==> a[k] == b[k]) {
      ChildLastDecides(x, p, k);
      ChildLastDecides(x, q, k);
      AddedAt(s, ChildLast(x, p).instances, k);
      AddedAt(s, ChildLast(x, q).instances, k);
    }
    ChildLastDecides(x, p, n);
    ChildLastDecides(x, q, n);
    AddedAt(s, ChildLast(x, p).instances, n);
    AddedAt(s, ChildLast(x, q).instances, n);
    assert b == a[n := b[n]];
    OneServerShows(a, n, b[n]);
    CancelFront(x.listenOn, FeedServers(a), FeedServers(b));
    LastEntry(r, ChildLast(x, p));
    LastEntry(r, ChildLast(x, q));
    var m := Build(r + [ChildLast(x, p)]);
    assert Build(r + [ChildLast(x, q)]) == m[x.id := Entry(x.listenOn, b)];
    OneEntryShows(m, x.id, Entry(x.listenOn, b));
  }

  // ---------------------------------------------------------------- the exact result on the bytes

  /** Every order feeds the same bytes. */
  ghost predicate OrderFree(c: Config) {
    forall d, e :: Shuffled(c, d) && Shuffled(c, e) ==> Feed(Build(d)) == Feed(Build(e))
  }

  /** Elements with one id that are consistent in themselves agree or disagree in a single value. */
  ghost predicate SingleConflicts(c: Config) {
    forall x, y :: x in c && y in c && Consistent(x) && Consistent(y) ==> Agree(x, y) || DisagreeOnce(x, y)
  }

  /** Two elements brought to the end, in both orders. */
  lemma BringLast(c: Config, i: nat, j: nat) returns (r: Config)
    requires i < |c| && j < |c| && i != j
    ensures Shuffled(c, r + [c[i], c[j]]) && Shuffled(c, r + [c[j], c[i]])
  {
    hide Shuffled, CanonOf;
    var x, y := c[i], c[j];
    var d := MoveLast(c, i, x);
    MoveLastShuffles(c, i, x);
    var k := if j < i then j else j - 1;
    assert d[k] == y && k < |d| - 1;
    var e := MoveLast(d, k, y);
    MoveLastShuffles(d, k, y);
    ShuffledTwice(c, d, e);
    r := e[..|e| - 2];
    assert e[|e| - 1] == y && e[|e| - 2] == x;
    assert e == r + [x, y];
    var f := MoveLast(e, |e| - 2, x);
    MoveLastShuffles(e, |e| - 2, x);
    ShuffledTwice(c, e, f);
    assert f == r + [y, x];
  }

  lemma ShuffledTwice(c: Config, d: Config, e: Config)
    requires Shuffled(c, d) && Shuffled(d, e)
    ensures Shuffled(c, e)
  {
  }

  lemma InconsistentShows(c: Config, x: Module)
    requires x in c && !Consistent(x)
    ensures !OrderFree(c)
  {
    hide Shuffled, CanonOf, Build, Feed;
    var i :| 0 <= i < |c| && c[i] == x;
    var s, t :| s in x.instances && t in x.instances && s.name == t.name && s.addr != t.addr;
    var p :| 0 <= p < |x.instances| && x.instances[p] == s;
    var q :| 0 <= q < |x.instances| && x.instances[q] == t;
    ChildLastCanon(x, p);
    ChildLastCanon(x, q);
    MoveLastShuffles(c, i, ChildLast(x, p));
    MoveLastShuffles(c, i, ChildLast(x, q));
    ChildConflictShows(c[..i] + c[i + 1..], x, p, q);
  }

  lemma DisagreementShows(c: Config, x: Module, y: Module)
    requires x in c && y in c && Consistent(x) && Consistent(y) && DisagreeOnce(x, y)
    ensures !OrderFree(c)
  {
    hide Shuffled, Build, Feed, Consistent, DisagreeOnce;
    var i :| 0 <= i < |c| && c[i] == x;
    var j :| 0 <= j < |c| && c[j] == y;
    assert x != y by { NoSelfDisagreement(x, y); }
    var r := BringLast(c, i, j);
    SingleDisagreementShows(r, x, y);
  }

  lemma NoSelfDisagreement(x: Module, y: Module)
    requires Consistent(x) && DisagreeOnce(x, y)
    ensures x != y
  {
  }

  /** In a configuration whose elements disagree in single values only, the bytes fed to MD5 are
      independent of the order if and only if there is no conflict at all. */
  lemma OrderFreeExactly(c: Config)
    requires SingleConflicts(c)
    ensures OrderFree(c) <==> NoConflict(c)
  {
    hide Shuffled, Build, Feed, DisagreeOnce;
    if NoConflict(c) {
      forall d, e | Shuffled(c, d) && Shuffled(c, e) ensures Feed(Build(d)) == Feed(Build(e)) {
        OrderInsensitive(c, d);
        OrderInsensitive(c, e);
      }
    } else {
      var x, y :| x in c && y in c && !Agree(x, y);
      if !Consistent(x) {
        InconsistentShows(c, x);
      } else if !Consistent(y) {
        InconsistentShows(c, y);
      } else {
        DisagreementShows(c, x, y);
      }
    }
  }

  // ---------------------------------------------------------------- one id at a time

  /** The elements with an id, or with any other, in their order. */
  function Only(c: Config, id: String, same: bool): Config {
    if c == [] then []
    else
      var x := c[|c| - 1];
      Only(c[..|c| - 1], id, same) + if (x.id == id) == same then [x] else []
  }

  lemma CanonsAppend(c: Config, d: Config)
    ensures Canons(c + d) == Canons(c) + Canons(d)
  {
    hide CanonOf;
  }

  function CanonCount(c: Config, z: Canon): nat { multiset(Canons(c))[z] }

  lemma CountAppend(c: Config, d: Config, z: Canon)
    ensures CanonCount(c + d, z) == CanonCount(c, z) + CanonCount(d, z)
  {
    CanonsAppend(c, d);
  }

  lemma CountOne(x: Module, z: Canon)
    ensures CanonCount([x], z) == if CanonOf(x) == z then 1 else 0
    ensures CanonCount([], z) == 0
  {
    hide CanonOf;
    assert Canons([x]) == [CanonOf(x)] && Canons([]) == [];
  }

  /** The selected elements are those with the id, as often as they are there. */
  lemma {:induction false} OnlyCounts(c: Config, id: String, same: bool, z: Canon)
    ensures CanonCount(Only(c, id, same), z) == if (z.id == id) == same then CanonCount(c, z) else 0
  {
    hide CanonCount;
    if c == [] {
      CountOne(Foreign([]), z);
    } else {
      var init, x := c[..|c| - 1], c[|c| - 1];
      assert c == init + [x];
      OnlyCounts(init, id, same, z);
      CountAppend(init, [x], z);
      CountAppend(Only(init, id, same), [x], z);
      CountOne(x, z);
      assert Only(init, id, same) + [] == Only(init, id, same);
    }
  }

  lemma ShuffledCounts(c: Config, d: Config)
    ensures Shuffled(c, d) <==> forall z :: CanonCount(c, z) == CanonCount(d, z)
  {
    if forall z :: CanonCount(c, z) == CanonCount(d, z) {
      forall z ensures multiset(Canons(c))[z] == multiset(Canons(d))[z] {
        assert CanonCount(c, z) == CanonCount(d, z);
      }
    }
  }

  /** A shuffle of a configuration shuffles the elements of each id. */
  lemma ShuffledOnly(c: Config, d: Config, id: String)
    requires Shuffled(c, d)
    ensures Shuffled(Only(c, id, true), Only(d, id, true))
  {
    hide CanonCount, Shuffled, Only;
    ShuffledCounts(c, d);
    forall z ensures CanonCount(Only(c, id, true), z) == CanonCount(Only(d, id, true), z) {
      OnlyCounts(c, id, true, z);
      OnlyCounts(d, id, true, z);
    }
    ShuffledCounts(Only(c, id, true), Only(d, id, true));
  }

  /** Shuffling the elements of one id behind all others shuffles the configuration. */
  lemma ShuffledBehind(c: Config, id: String, d: Config)
    requires Shuffled(Only(c, id, true), d)
    ensures Shuffled(c, Only(c, id, false) + d)
  {
    hide CanonCount, Shuffled, Only;
    var r := Only(c, id, false);
    ShuffledCounts(Only(c, id, true), d);
    forall z ensures CanonCount(c, z) == CanonCount(r + d, z) {
      OnlyCounts(c, id, true, z);
      OnlyCounts(c, id, false, z);
      CountAppend(r, d, z);
    }
    ShuffledCounts(c, r + d);
  }

  ghost predicate AllWith(c: Config, id: String) { forall x :: x in c ==> x.id == id }

  lemma {:induction false} OnlyAllWith(c: Config, id: String)
    ensures AllWith(Only(c, id, true), id)
    ensures forall x :: x in Only(c, id, false) ==> x.id != id
    ensures forall x :: x in c && x.id == id ==> x in Only(c, id, true)
  {
    if c != [] {
      OnlyAllWith(c[..|c| - 1], id);
      assert c == c[..|c| - 1] + [c[|c| - 1]];
    }
  }

  lemma ShuffledAllWith(c: Config, d: Config, id: String)
    requires Shuffled(c, d) && AllWith(c, id)
    ensures AllWith(d, id)
  {
    hide Shuffled, CanonOf;
    assert Shuffled(d, c) by { ShuffledCounts(c, d); ShuffledCounts(d, c); }
    forall x | x in d ensures x.id == id {
      var y := Counterpart(d, c, x);
      CanonId(x, y);
    }
  }

  /** An id has an entry exactly when it has an element, and the entry depends on the elements
      with the id only. */
  lemma {:induction false} BuildOnly(c: Config, id: String)
    ensures id in Build(c) <==> Only(c, id, true) != []
    ensures Build(Only(c, id, true)) == if id in Build(c) then map[id := Build(c)[id]] else map[]
  {
    hide AddInstances;
    if c != [] {
      var init, x := c[..|c| - 1], c[|c| - 1];
      BuildOnly(init, id);
      if x.id == id {
        LastEntry(Only(init, id, true), x);
      } else {
        assert Only(init, id, true) + [] == Only(init, id, true);
      }
    }
  }

  /** Elements of one id behind others without it change that entry only. */
  lemma {:induction false} BuildBehind(r: Config, d: Config, id: String)
    requires AllWith(d, id) && d != [] && id !in Build(r)
    ensures id in Build(d) && Build(r + d) == Build(r)[id := Build(d)[id]]
    decreases |d|
  {
    hide AddInstances, Build;
    var init, x := d[..|d| - 1], d[|d| - 1];
    assert d == init + [x] && r + d == (r + init) + [x];
    assert x in d && forall y :: y in init ==> y in d;
    LastEntry(init, x);
    LastEntry(r + init, x);
    if init == [] {
      BuildNothing();
      assert r + init == r;
    } else {
      BuildBehind(r, init, id);
    }
  }

  /** Entries that add the same bytes feed the same bytes. */
  lemma {:induction false} SameEntriesFeedSame(m: map<String, Entry>, n: map<String, Entry>)
    requires m.Keys == n.Keys && forall id :: id in m ==> EntryBytes(m[id]) == EntryBytes(n[id])
    ensures Feed(m) == Feed(n)
    decreases |m|
  {
    hide Feed, EntryBytes, Less;
    if m == map[] {
      assert n == map[];
    } else {
      FirstExists(m.Keys);
      var k :| IsFirst(m.Keys, k);
      FeedEntry(m, k);
      FeedEntry(n, k);
      SameEntriesFeedSame(m - {k}, n - {k});
    }
  }

  lemma OneEntryFeeds(id: String, e: Entry)
    ensures Feed(map[id := e]) == id + EntryBytes(e)
  {
    hide Feed, EntryBytes, Less;
    var m := map[id := e];
    assert IsFirst(m.Keys, id);
    FeedEntry(m, id);
    FeedNothing();
    assert m - {id} == map[];
    assert id + EntryBytes(e) + [] == id + EntryBytes(e);
  }

  /** Two orders of the elements of one id feed the same exactly when their entries add the same. */
  lemma GroupFeeds(d: Config, e: Config, id: String)
    requires AllWith(d, id) && AllWith(e, id) && d != [] && e != []
    ensures id in Build(d) && id in Build(e)
    ensures Feed(Build(d)) == Feed(Build(e)) <==> EntryBytes(Build(d)[id]) == EntryBytes(Build(e)[id])
  {
    hide Feed, EntryBytes, Build;
    BuildNothing();
    BuildBehind([], d, id);
    BuildBehind([], e, id);
    assert [] + d == d && [] + e == e;
    OneEntryFeeds(id, Build(d)[id]);
    OneEntryFeeds(id, Build(e)[id]);
    CancelFront(id, EntryBytes(Build(d)[id]), EntryBytes(Build(e)[id]));
  }

  /** If the bytes of a configuration do not depend on the order, neither do those of the elements
      of any one id. */
  lemma OrderFreeGroup(c: Config, x: Module, d: Config, e: Config)
    requires OrderFree(c) && x in c && Shuffled(Only(c, x.id, true), d) && Shuffled(Only(c, x.id, true), e)
    ensures Feed(Build(d)) == Feed(Build(e))
  {
    hide Shuffled, Feed, EntryBytes, Build, Only;
    var id := x.id;
    var g, r := Only(c, id, true), Only(c, id, false);
    OnlyAllWith(c, id);
    ShuffledAllWith(g, d, id);
    ShuffledAllWith(g, e, id);
    SameLength(g, d);
    SameLength(g, e);
    ShuffledBehind(c, id, d);
    ShuffledBehind(c, id, e);
    assert id !in Build(r) by { NoElementNoEntry(r, id); }
    BuildBehind(r, d, id);
    BuildBehind(r, e, id);
    GroupFeeds(d, e, id);
    var m := Build(r + d);
    assert Build(r + e) == m[id := Build(e)[id]];
    OneEntryShows(m, id, Build(e)[id]);
  }

  lemma NoElementNoEntry(c: Config, id: String)
    requires forall x :: x in c ==> x.id != id
    ensures id !in Build(c)
  {
    BuildOnly(c, id);
    OnlyAllWith(c, id);
    OnlyFrom(c, id);
  }

  lemma {:induction false} OnlyFrom(c: Config, id: String)
    ensures forall x :: x in Only(c, id, true) ==> x in c && x.id == id
    ensures (forall x :: x in c ==> x.id != id) ==> Only(c, id, true) == []
  {
    if c != [] {
      OnlyFrom(c[..|c| - 1], id);
      assert c == c[..|c| - 1] + [c[|c| - 1]];
    }
  }

  /** The entries of two shuffles add the same bytes when no order of the elements of any one id
      changes them. */
  lemma GroupsFix(c: Config, d: Config, e: Config)
    requires Shuffled(c, d) && Shuffled(c, e) && forall x :: x in c ==> OrderFree(Only(c, x.id, true))
    ensures Build(d).Keys == Build(e).Keys
    ensures forall id :: id in Build(d) ==> EntryBytes(Build(d)[id]) == EntryBytes(Build(e)[id])
  {
    hide Shuffled, Feed, EntryBytes, Build, Only, OrderFree;
    forall id
      ensures id in Build(d) <==> id in Build(e)
      ensures id in Build(d) ==> EntryBytes(Build(d)[id]) == EntryBytes(Build(e)[id])
    {
      GroupFixes(c, d, e, id);
    }
  }

  lemma GroupFixes(c: Config, d: Config, e: Config, id: String)
    requires Shuffled(c, d) && Shuffled(c, e) && forall x :: x in c ==> OrderFree(Only(c, x.id, true))
    ensures id in Build(d) <==> id in Build(e)
    ensures id in Build(d) ==> EntryBytes(Build(d)[id]) == EntryBytes(Build(e)[id])
  {
    hide Shuffled, Feed, EntryBytes, Build, Only;
    var g, gd, ge := Only(c, id, true), Only(d, id, true), Only(e, id, true);
    ShuffledOnly(c, d, id);
    ShuffledOnly(c, e, id);
    SameLength(g, gd);
    SameLength(g, ge);
    BuildOnly(d, id);
    BuildOnly(e, id);
    if id in Build(d) {
      OnlyFrom(c, id);
      assert g[0] in g && g[0] in c && g[0].id == id;
      assert OrderFree(g);
      OnlyAllWith(d, id);
      OnlyAllWith(e, id);
      GroupFeeds(gd, ge, id);
    }
  }

  /** For every configuration: the bytes fed to MD5 are independent of the order if and only if,
      for each id on its own, those of the elements with that id are. */
  lemma OrderFreeByGroup(c: Config)
    ensures OrderFree(c) <==> forall x :: x in c ==> OrderFree(Only(c, x.id, true))
  {
    hide Shuffled, Feed, EntryBytes, Build, Only;
    if OrderFree(c) {
      forall x | x in c ensures OrderFree(Only(c, x.id, true)) {
        forall d, e | Shuffled(Only(c, x.id, true), d) && Shuffled(Only(c, x.id, true), e)
          ensures Feed(Build(d)) == Feed(Build(e))
        {
          OrderFreeGroup(c, x, d, e);
        }
      }
    }
    if forall x :: x in c ==> OrderFree(Only(c, x.id, true)) {
      forall d, e | Shuffled(c, d) && Shuffled(c, e) ensures Feed(Build(d)) == Feed(Build(e)) {
        GroupsFix(c, d, e);
        SameEntriesFeedSame(Build(d), Build(e));
      }
    }
  }

  // ---------------------------------------------------------------- conflicts that cancel

  function Lone(listenOn: String, addr: String): Module {
    Module(true, true, [49], listenOn, [Instance(true, true, [110], addr)])
  }

  /** Disagreements in two values can cancel, because the values are fed without separators: the
      map depends on the order and the bytes do not. */
  lemma ConflictsCanCancel(d: Config)
    ensures var c := [Lone([112], [110]), Lone([112, 110], [])];
      && !NoConflict(c) && Build(c) != Build([c[1], c[0]])
      && (Shuffled(c, d) ==> Feed(Build(d)) == [49, 112, 110, 110])
  {
    hide Shuffled, Build, Feed, CanonOf, FeedServers;
    var a, b := Lone([112], [110]), Lone([112, 110], []);
    assert !Agree(a, b) && a in [a, b] && b in [a, b];
    LonePair([112], [110], [112, 110], []);
    LonePair([112, 110], [], [112], [110]);
    assert Build([a, b])[[49]].listenOn != Build([b, a])[[49]].listenOn;
    if Shuffled([a, b], d) {
      LoneShuffles(a, b, d);
      LoneFeed([112], [110]);
      LoneFeed([112, 110], []);
      assert [49] + [112] + [110] + [110] == [49, 112, 110, 110] == [49] + [112, 110] + [110] + [];
    }
  }

  lemma LonePair(l: String, a: String, l': String, a': String)
    ensures Build([Lone(l, a), Lone(l', a')]) == map[[49] := Entry(l', map[[110] := a'])]
  {
    hide Build, AddInstances;
    var x, y := Lone(l, a), Lone(l', a');
    LastTwoEntries([], x, y);
    BuildNothing();
    var one, two := map[[110] := a], map[[110] := a'];
    AddOne(map[], x.instances[0]);
    AddOne(one, y.instances[0]);
    assert AddInstances(map[], x.instances) == one;
    assert AddInstances(one, y.instances) == two;
    assert [] + [x, y] == [x, y];
  }

  lemma BuildNothing()
    ensures Build([]) == map[]
  {
  }

  lemma AddOne(m: map<String, String>, s: Instance)
    ensures AddInstances(m, [s]) == m[s.name := s.addr]
  {
    assert [s][..0] == [];
  }

  lemma LoneFeed(l: String, a: String)
    ensures Feed(map[[49] := Entry(l, map[[110] := a])]) == [49] + l + [110] + a
  {
    hide Feed, FeedServers, Less;
    var s := map[[110] := a];
    var m := map[[49] := Entry(l, s)];
    assert IsFirst(m.Keys, [49]) && IsFirst(s.Keys, [110]);
    FeedStep(m, [49]);
    FeedServersStep(s, [110]);
    FeedNothing();
    FeedServersNothing();
    assert m - {[49]} == map[] && s - {[110]} == map[];
    assert [49] + l + ([110] + a + []) + [] == [49] + l + [110] + a;
  }

  /** The only orders of two elements with a single child each. */
  lemma LoneShuffles(a: Module, b: Module, d: Config)
    requires |a.instances| == |b.instances| == 1 && a != b && Shuffled([a, b], d)
    ensures d == [a, b] || d == [b, a]
  {
    hide Shuffled, CanonOf;
    SameLength([a, b], d);
    assert a in [a, b] && b in [a, b];
    var x := Counterpart([a, b], d, a);
    var y := Counterpart([a, b], d, b);
    SingleChild(x, a);
    SingleChild(y, b);
    assert a in d && b in d;
  }

  lemma SameLength(c: Config, d: Config)
    requires Shuffled(c, d)
    ensures |c| == |d|
  {
    hide CanonOf;
    assert |multiset(Canons(c))| == |c| && |multiset(Canons(d))| == |d|;
  }

  lemma SingleChild(x: Module, y: Module)
    requires CanonOf(x) == CanonOf(y) && |y.instances| == 1
    ensures x == y
  {
    assert |multiset(x.instances)| == 1;
    assert x.instances == [x.instances[0]] && y.instances == [y.instances[0]];
    assert x.instances[0] in multiset(y.instances);
  }

  function Foreign(addr: String): Module { Module(false, true, [49], addr, []) }

  lemma ForeignShuffle(x: Module, y: Module)
    requires !x.known && !y.known
    ensures Valid([x, y]) && Shuffled([x, y], [y, x])
  {
    hide CanonOf, Atoi;
    assert Canons([x, y]) == [CanonOf(x), CanonOf(y)] && Canons([y, x]) == [CanonOf(y), CanonOf(x)];
  }

  lemma ForeignFeed(addr: String, winner: String)
    ensures Feed(Build([Foreign(addr), Foreign(winner)])) == [49] + winner
  {
    hide Build, Feed;
    BuildTwo(Foreign(addr), Foreign(winner));
    FeedOne([49], winner);
  }

  /** Elements with another tag pass validation and still count: two of them with one id make the
      checksum of a valid configuration depend on their order. */
  lemma ForeignTagsOrderSensitive()
    ensures exists c, d :: Valid(c) && Shuffled(c, d) && Feed(Build(c)) != Feed(Build(d))
  {
    hide Valid, Shuffled, Feed, Build;
    ForeignShuffle(Foreign([97]), Foreign([98]));
    ForeignFeed([97], [98]);
    ForeignFeed([98], [97]);
    assert ([49] + [98])[1] != ([49] + [97])[1];
    var c, d := [Foreign([97]), Foreign([98])], [Foreign([98]), Foreign([97])];
    assert Valid(c) && Shuffled(c, d) && Feed(Build(c)) != Feed(Build(d));
  }

  lemma BuildTwo(x: Module, y: Module)
    requires x.id == y.id && x.instances == [] && y.instances == []
    ensures Build([x, y]) == map[x.id := Entry(y.listenOn, map[])]
  {
    assert [x, y][..1] == [x] && [x][..0] == [];
    assert Build([x]) == map[x.id := Entry(x.listenOn, map[])];
  }

  lemma FeedOne(id: String, addr: String)
    ensures Feed(map[id := Entry(addr, map[])]) == id + addr
  {
    var m := map[id := Entry(addr, map[])];
    assert id in m;
    assert m != map[];
    assert m - {id} == map[];
    assert forall k :: IsFirst(m.Keys, k) ==> k == id;
    assert id + addr + [] + [] == id + addr;
  }

  // ---------------------------------------------------------------- the program

  /** The inner loop that fills an entry. */
  method FillServers(m: map<String, String>, instances: seq<Instance>) returns (r: map<String, String>)
    ensures r == AddInstances(m, instances)
  {
    r := m;
    for i := 0 to |instances|
      invariant r == AddInstances(m, instances[..i])
    {
      assert instances[..i + 1][..i] == instances[..i];
      r := r[instances[i].name := instances[i].addr];
    }
    assert instances[..|instances|] == instances;
  }

  /** The inner loop that feeds the servers of a module. */
  method FeedAll(m: map<String, String>) returns (fed: seq<byte>)
    ensures fed == FeedServers(m)
  {
    hide ServersFed, Less;
    var left := m;
    fed := [];
    ServersFedStarts(m);
    while left != map[]
      invariant ServersFed(fed, left, m)
      decreases |left|
    {
      FirstExists(left.Keys);
      var k :| k in left && forall x :: x in left.Keys && x != k ==> Less(k, x);
      ServersFedStep(fed, left, k, m);
      fed := fed + k + left[k];
      left := left - {k};
    }
    ServersFedEnds(fed, m);
  }

  /** What was fed and what is left to feed are the bytes of all servers. */
  ghost predicate ServersFed(fed: seq<byte>, left: map<String, String>, m: map<String, String>) {
    fed + FeedServers(left) == FeedServers(m)
  }

  lemma ServersFedStarts(m: map<String, String>)
    ensures ServersFed([], m, m)
  {
    hide FeedServers;
    assert [] + FeedServers(m) == FeedServers(m);
  }

  lemma ServersFedStep(fed: seq<byte>, left: map<String, String>, k: String, m: map<String, String>)
    requires ServersFed(fed, left, m) && IsFirst(left.Keys, k)
    ensures ServersFed(fed + k + left[k], left - {k}, m) && |left - {k}| < |left|
  {
    hide FeedServers, Less;
    FeedServersStep(left, k);
    var rest := FeedServers(left - {k});
    assert fed + (k + left[k] + rest) == (fed + k + left[k]) + rest;
  }

  lemma ServersFedEnds(fed: seq<byte>, m: map<String, String>)
    requires ServersFed(fed, map[], m)
    ensures fed == FeedServers(m)
  {
    FeedServersNothing();
  }

  lemma FeedServersNothing()
    ensures FeedServers(map[]) == []
  {
  }

  lemma FeedServersStep(m: map<String, String>, k: String)
    requires IsFirst(m.Keys, k)
    ensures FeedServers(m) == k + m[k] + FeedServers(m - {k}) && |m - {k}| < |m|
  {
    assert m != map[];
    assert (m - {k}).Keys == m.Keys - {k};
    forall j | IsFirst(m.Keys, j) ensures j == k { FirstUnique(m.Keys, j, k); }
  }

  lemma FeedStep(m: map<String, Entry>, k: String)
    requires IsFirst(m.Keys, k)
    ensures Feed(m) == k + m[k].listenOn + FeedServers(m[k].servers) + Feed(m - {k}) && |m - {k}| < |m|
  {
    assert m != map[];
    assert (m - {k}).Keys == m.Keys - {k};
    forall j | IsFirst(m.Keys, j) ensures j == k { FirstUnique(m.Keys, j, k); }
  }

  /** The loop over the elements, which fills the maps. */
  method BuildMap(c: Config) returns (m: map<String, Entry>)
    ensures m == Build(c)
  {
    hide AddInstances;
    m := map[];
    for i := 0 to |c|
      invariant m == Build(c[..i])
    {
      assert c[..i + 1][..i] == c[..i];
      var servers := FillServers(if c[i].id in m then m[c[i].id].servers else map[], c[i].instances);
      m := m[c[i].id := Entry(c[i].listenOn, servers)];
    }
    assert c[..|c|] == c;
  }

  /** `ConfigGetCksum` up to the digest: the bytes passed to MD5Update, in order.  An element
      without its attributes would be read through a null pointer. */
  method GetCksumBytes(c: Config) returns (fed: seq<byte>)
    requires forall x :: x in c ==> x.whole && forall s :: s in x.instances ==> s.whole
    ensures fed == Feed(Build(c))
  {
    hide Build, Fed, Less;
    var m := BuildMap(c);
    fed := [];
    FedStarts(m);
    while m != map[]
      invariant Fed(fed, m, Build(c))
      decreases |m|
    {
      FirstExists(m.Keys);
      var k :| k in m && forall x :: x in m.Keys && x != k ==> Less(k, x);
      var servers := FeedAll(m[k].servers);
      FedStep(fed, m, k, Build(c));
      fed := fed + k + m[k].listenOn + servers;
      m := m - {k};
    }
    FedEnds(fed, Build(c));
  }

  /** What was fed and what is left to feed are the bytes of the whole map. */
  ghost predicate Fed(fed: seq<byte>, left: map<String, Entry>, m: map<String, Entry>) {
    fed + Feed(left) == Feed(m)
  }

  lemma FedStarts(m: map<String, Entry>)
    ensures Fed([], m, m)
  {
    hide Feed;
    assert [] + Feed(m) == Feed(m);
  }

  lemma FedStep(fed: seq<byte>, left: map<String, Entry>, k: String, m: map<String, Entry>)
    requires Fed(fed, left, m) && IsFirst(left.Keys, k)
    ensures Fed(fed + k + left[k].listenOn + FeedServers(left[k].servers), left - {k}, m) && |left - {k}| < |left|
  {
    hide Feed, FeedServers, Less;
    FeedStep(left, k);
    var l, f, rest := left[k].listenOn, FeedServers(left[k].servers), Feed(left - {k});
    assert fed + (k + l + f + rest) == (fed + k + l + f) + rest;
  }

  lemma FedEnds(fed: seq<byte>, m: map<String, Entry>)
    requires Fed(fed, map[], m)
    ensures fed == Feed(m)
  {
    FeedNothing();
  }

  lemma FeedNothing()
    ensures Feed(map[]) == []
  {
  }
}
