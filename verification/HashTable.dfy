/** expat's symbol table: open addressing with downward cyclic probing. */
module HashTable {

  const WORD: nat := 0x1_0000_0000_0000_0000

  const INIT_SIZE: nat := 64

  /** What every table entry begins with. */
  class Named {
    const name: string

    constructor (name: string)
      ensures this.name == name
    {
      this.name := name;
    }
  }

  /** h = 33 * h + c in an unsigned long, character by character. */
  function Hash(s: string): (h: nat)
    ensures h < WORD
  {
    if s == "" then 0 else (33 * Hash(s[..|s| - 1]) + s[|s| - 1] as nat) % WORD
  }

  method HashOf(s: string) returns (h: nat)
    ensures h == Hash(s)
  {
    h := 0;
    var i := 0;
    assert s[..0] == "";
    while i < |s|
      invariant 0 <= i <= |s| && h == Hash(s[..i])
    {
      assert s[..i + 1][..i] == s[..i];
      h := (33 * h + s[i] as nat) % WORD;
      i := i + 1;
    }
    assert s[..i] == s;
  }

  // ---- probing ----

  predicate PowerOfTwo(n: nat) { n == 1 || (n > 0 && n % 2 == 0 && PowerOfTwo(n / 2)) }

  lemma {:induction false} Doubles(n: nat)
    requires PowerOfTwo(n)
    ensures PowerOfTwo(n * 2)
  {
    assert n * 2 / 2 == n;
  }

  /** Bitwise and. */
  function And(a: nat, b: nat): nat
    decreases b
  {
    if b == 0 then 0 else 2 * And(a / 2, b / 2) + (a % 2) * (b % 2)
  }

  lemma {:induction false} TimesMonotone(d: nat, x: int, y: int)
    requires x <= y
    ensures d * x <= d * y
  {}

  lemma {:induction false} RemainderIs(a: nat, d: nat, q: int, r: nat)
    requires a == d * q + r && r < d
    ensures a % d == r
  {
    var q' := a / d;
    assert a == d * q' + a % d;
    if q' < q {
      TimesMonotone(d, q' + 1, q);
    }
    if q < q' {
      TimesMonotone(d, q + 1, q');
    }
  }

  lemma {:induction false} AndOdd(a: nat, b: nat)
    requires b % 2 == 1
    ensures And(a, b) == 2 * And(a / 2, b / 2) + a % 2
  {}

  lemma {:induction false} DoubleTimes(a: nat, b: nat)
    ensures 2 * a * b == 2 * (a * b)
  {}

  lemma {:induction false} HalfRemainder(h: nat, half: nat)
    requires half > 0
    ensures h % (2 * half) == 2 * (h / 2 % half) + h % 2
  {
    var q, r := h / 2 / half, h / 2 % half;
    assert h / 2 == half * q + r;
    DoubleTimes(half, q);
    RemainderIs(h, 2 * half, q, 2 * r + h % 2);
  }

  /** For a power of two, masking with the number below it is taking the remainder. */
  lemma {:induction false} MaskIsRemainder(h: nat, size: nat)
    requires PowerOfTwo(size)
    ensures And(h, size - 1) == h % size
  {
    if size > 1 {
      MaskIsRemainder(h / 2, size / 2);
      assert (size - 1) % 2 == 1 && (size - 1) / 2 == size / 2 - 1;
      AndOdd(h, size - 1);
      HalfRemainder(h, size / 2);
    }
  }

  /** Where the search for a name begins: a remainder, which MaskIsRemainder shows the source's mask to be. */
  function Home(name: string, size: nat): (h: nat)
    requires size > 0
    ensures h < size
  {
    Hash(name) % size
  }

  /** The slot after k steps down from home, going round at zero. */
  function At(home: nat, k: nat, size: nat): (i: nat)
    requires home < size && k < size
    ensures i < size
  {
    if k <= home then home - k else home - k + size
  }

  /** How many steps down from home slot i is. */
  function Steps(home: nat, i: nat, size: nat): (k: nat)
    requires home < size && i < size
    ensures k < size && At(home, k, size) == i
  {
    if i <= home then home - i else home - i + size
  }

  /** The first k slots from home are taken. */
  ghost predicate Taken(s: seq<Named?>, home: nat, k: nat)
    requires home < |s| && k <= |s|
  {
    forall j :: 0 <= j < k ==> s[At(home, j, |s|)] != null
  }

  /** The places of the names: every entry is where its name is placed, with no empty slot before it on its path. */
  ghost predicate Placed(s: seq<Named?>, places: map<string, nat>) {
    && (forall n :: n in places ==> places[n] < |s| && s[places[n]] != null && s[places[n]].name == n)
    && (forall i :: 0 <= i < |s| && s[i] != null ==> s[i].name in places && places[s[i].name] == i)
    && (forall n :: n in places ==> Taken(s, Home(n, |s|), Steps(Home(n, |s|), places[n], |s|)))
  }

  /** The map a placed array stands for. */
  ghost function EntriesOf(s: seq<Named?>, places: map<string, nat>): map<string, Named>
    requires Placed(s, places)
  {
    map n | n in places :: s[places[n]] as Named
  }

  /** The slots from home on are taken by other names, and the next one is empty. */
  ghost predicate Missed(s: seq<Named?>, name: string, k: nat) {
    && k < |s| && Taken(s, Home(name, |s|), k)
    && s[At(Home(name, |s|), k, |s|)] == null
  }

  /** A name that is in the table is met before the first empty slot on its path. */
  lemma {:induction false} PresentBeforeMiss(s: seq<Named?>, places: map<string, nat>, name: string, k: nat)
    requires Placed(s, places) && Missed(s, name, k) && name in places
    ensures Steps(Home(name, |s|), places[name], |s|) < k
  {
    var home := Home(name, |s|);
    var m := Steps(home, places[name], |s|);
    assert s[At(home, m, |s|)] == s[places[name]] != null;
    assert Taken(s, home, m);
  }

  /** A search that meets other names only and then an empty slot has proved the name absent. */
  lemma {:induction false} AbsentWhenMissed(s: seq<Named?>, places: map<string, nat>, name: string, k: nat)
    requires Placed(s, places) && Missed(s, name, k)
    requires forall j :: 0 <= j < k ==> s[At(Home(name, |s|), j, |s|)].name != name
    ensures name !in places
  {
    if name in places {
      PresentBeforeMiss(s, places, name, k);
      assert false;
    }
  }

  lemma {:induction false} TakenStays(s: seq<Named?>, i: nat, p: Named, home: nat, k: nat)
    requires i < |s| && home < |s| && k <= |s| && Taken(s, home, k)
    ensures Taken(s[i := p], home, k)
  {}

  /** Filling that empty slot places the name and disturbs no other. */
  lemma {:induction false} PlaceAtMiss(s: seq<Named?>, places: map<string, nat>, p: Named, k: nat)
    requires Placed(s, places) && Missed(s, p.name, k) && p.name !in places
    ensures var i := At(Home(p.name, |s|), k, |s|);
            Placed(s[i := p], places[p.name := i])
            && EntriesOf(s[i := p], places[p.name := i]) == EntriesOf(s, places)[p.name := p]
  {
    var home := Home(p.name, |s|);
    var i := At(home, k, |s|);
    var s', places' := s[i := p], places[p.name := i];
    forall n | n in places'
      ensures Taken(s', Home(n, |s'|), Steps(Home(n, |s'|), places'[n], |s'|))
    {
      if n == p.name {
        assert Steps(home, i, |s|) == k;
        TakenStays(s, i, p, home, k);
      } else {
        TakenStays(s, i, p, Home(n, |s|), Steps(Home(n, |s|), places[n], |s|));
      }
    }
  }

  /** The first n slots hold n different names. */
  lemma {:induction false} FullCount(s: seq<Named?>, places: map<string, nat>, n: nat) returns (names: set<string>)
    requires Placed(s, places) && n <= |s| && forall i :: 0 <= i < n ==> s[i] != null
    ensures |names| == n && names <= places.Keys && forall m :: m in names ==> places[m] < n
  {
    names := {};
    if n > 0 {
      names := FullCount(s, places, n - 1);
      names := names + {s[n - 1].name};
    }
  }

  /** With fewer names than slots a search cannot go all the way round. */
  lemma {:induction false} NotFull(s: seq<Named?>, places: map<string, nat>, home: nat)
    requires Placed(s, places) && |places.Keys| < |s| && home < |s|
    ensures !Taken(s, home, |s|)
  {
    if Taken(s, home, |s|) {
      forall i | 0 <= i < |s|
        ensures s[i] != null
      {
        assert s[At(home, Steps(home, i, |s|), |s|)] != null;
      }
      var names := FullCount(s, places, |s|);
      SubsetCount(names, places.Keys);
      assert false;
    }
  }

  lemma {:induction false} SubsetCount<T>(a: set<T>, b: set<T>)
    requires a <= b
    ensures |a| <= |b|
  {
    assert b == a + (b - a);
  }

  /** One step of a search. */
  method Down(i: nat, size: nat, ghost home: nat, ghost k: nat) returns (j: nat)
    requires home < size && k + 1 < size && i == At(home, k, size)
    ensures j == At(home, k + 1, size)
  {
    j := if i == 0 then size - 1 else i - 1;
  }

  /** Looks for the first empty slot on a name's path. */
  method EmptySlot(v: array<Named?>, name: string, h: nat, ghost places: map<string, nat>)
    returns (i: nat, ghost k: nat)
    requires Placed(v[..], places) && |places.Keys| < v.Length && h == Hash(name)
    ensures Missed(v[..], name, k) && i == At(Home(name, v.Length), k, v.Length)
  {
    ghost var home := Home(name, v.Length);
    NotFull(v[..], places, home);
    i, k := h % v.Length, 0;
    while v[i] != null
      invariant k < v.Length && i == At(home, k, v.Length) && Taken(v[..], home, k)
      decreases v.Length - k
    {
      assert Taken(v[..], home, k + 1);
      i := Down(i, v.Length, home, k);
      k := k + 1;
    }
  }

  /** Looks for a name on its path: stops at its entry or at the first empty slot. */
  method Search(v: array<Named?>, name: string, h: nat, ghost places: map<string, nat>) returns (i: nat, ghost k: nat)
    requires Placed(v[..], places) && |places.Keys| < v.Length && h == Hash(name)
    ensures i < v.Length
    ensures if v[i] != null then name in places && places[name] == i
            else name !in places && Missed(v[..], name, k) && i == At(Home(name, v.Length), k, v.Length)
  {
    ghost var home := Home(name, v.Length);
    NotFull(v[..], places, home);
    i, k := h % v.Length, 0;
    while v[i] != null
      invariant k < v.Length && i == At(home, k, v.Length) && Taken(v[..], home, k)
      invariant forall j :: 0 <= j < k ==> v[..][At(home, j, v.Length)].name != name
      decreases v.Length - k
    {
      if v[i].name == name {
        return;
      }
      assert Taken(v[..], home, k + 1);
      i := Down(i, v.Length, home, k);
      k := k + 1;
    }
    AbsentWhenMissed(v[..], places, name, k);
  }

  /** The names placed before slot n of the old array are placed in the new one, as the same entries. */
  ghost predicate Copied(s: seq<Named?>, places: map<string, nat>, n: nat, t: seq<Named?>, moved: map<string, nat>) {
    && Placed(s, places) && Placed(t, moved) && n <= |s|
    && (forall m :: m in moved <==> m in places && places[m] < n)
    && (forall m :: m in moved ==> t[moved[m]] == s[places[m]])
  }

  lemma {:induction false} CopiedNothing(s: seq<Named?>, places: map<string, nat>, n: nat, t: seq<Named?>,
                                         moved: map<string, nat>)
    requires Copied(s, places, n, t, moved) && n < |s| && s[n] == null
    ensures Copied(s, places, n + 1, t, moved)
  {}

  lemma {:induction false} CopiedOne(s: seq<Named?>, places: map<string, nat>, n: nat, t: seq<Named?>,
                                     moved: map<string, nat>, k: nat)
    requires Copied(s, places, n, t, moved) && n < |s| && s[n] != null && Missed(t, s[n].name, k)
    ensures var i := At(Home(s[n].name, |t|), k, |t|);
            Copied(s, places, n + 1, t[i := s[n]], moved[s[n].name := i])
  {
    PlaceAtMiss(t, moved, s[n], k);
  }

  lemma {:induction false} CopiedAll(s: seq<Named?>, places: map<string, nat>, t: seq<Named?>, moved: map<string, nat>)
    requires Copied(s, places, |s|, t, moved)
    ensures Placed(t, moved) && moved.Keys == places.Keys && EntriesOf(t, moved) == EntriesOf(s, places)
  {}

  lemma {:induction false} FewMoved(s: seq<Named?>, places: map<string, nat>, n: nat, t: seq<Named?>,
                                    moved: map<string, nat>)
    requires Copied(s, places, n, t, moved)
    ensures |moved.Keys| <= |places.Keys|
  {
    SubsetCount(moved.Keys, places.Keys);
  }

  /** Enters every entry of v into a new array of twice the size. */
  method Rehash(v: array<Named?>, newSize: nat, ghost places: map<string, nat>)
    returns (newV: array<Named?>, ghost moved: map<string, nat>)
    requires Placed(v[..], places) && |places.Keys| < newSize
    ensures fresh(newV) && newV.Length == newSize && Copied(v[..], places, v.Length, newV[..], moved)
  {
    newV := new Named?[newSize](_ => null);
    moved := map[];
    var i := 0;
    while i < v.Length
      modifies newV
      invariant i <= v.Length && Copied(v[..], places, i, newV[..], moved)
    {
      if v[i] != null {
        FewMoved(v[..], places, i, newV[..], moved);
        var h := HashOf(v[i].name);
        var j, k := EmptySlot(newV, v[i].name, h, moved);
        CopiedOne(v[..], places, i, newV[..], moved, k);
        ghost var before := newV[..];
        newV[j] := v[i];
        assert newV[..] == before[j := v[i]];
        moved := moved[v[i].name := j];
      } else {
        CopiedNothing(v[..], places, i, newV[..], moved);
      }
      i := i + 1;
    }
  }

  class Table {
    var v: array<Named?>
    var size: nat
    var usedLim: nat
    var used: nat
    ghost var places: map<string, nat>

    ghost predicate Valid()
      reads this, v
    {
      && size == v.Length
      && usedLim == size / 2
      && used == |places.Keys| <= usedLim
      && (size == 0 || (size >= INIT_SIZE && PowerOfTwo(size)))
      && Placed(v[..], places)
    }

    /** The map the table stands for. */
    ghost function Entries(): map<string, Named>
      reads this, v
      requires Valid()
    {
      EntriesOf(v[..], places)
    }

    constructor ()
      ensures Valid() && fresh(v) && Entries() == map[]
    {
      v := new Named?[0];
      size, usedLim, used := 0, 0, 0;
      places := map[];
    }

    /** Takes over an array with the same names. */
    method Install(newV: array<Named?>, newSize: nat, ghost moved: map<string, nat>)
      requires newV.Length == newSize >= INIT_SIZE && PowerOfTwo(newSize)
      requires Placed(newV[..], moved) && used == |moved.Keys| <= newSize / 2
      modifies this`v, this`size, this`usedLim, this`places
      ensures Valid() && v == newV && size == newSize && places == moved
    {
      v, size, usedLim, places := newV, newSize, newSize / 2, moved;
    }

    /** Doubles the array. */
    method Enlarge()
      requires Valid() && size > 0
      modifies this`v, this`size, this`usedLim, this`places
      ensures Valid() && fresh(v) && size == 2 * old(size) && Entries() == old(Entries())
      ensures places.Keys == old(places).Keys
    {
      var newV, moved := Rehash(v, size * 2, places);
      CopiedAll(v[..], places, newV[..], moved);
      Doubles(size);
      Install(newV, size * 2, moved);
    }

    /** Makes a new entry in the empty slot i, k steps along its path. */
    method Insert(name: string, i: nat, ghost k: nat) returns (p: Named)
      requires Valid() && used < usedLim && name !in places
      requires Missed(v[..], name, k) && i == At(Home(name, size), k, size)
      modifies this`used, this`places, v
      ensures Valid() && fresh(p) && p.name == name && Entries() == old(Entries())[name := p]
    {
      p := new Named(name);
      PlaceAtMiss(v[..], places, p, k);
      ghost var before := v[..];
      v[i] := p;
      assert v[..] == before[i := p];
      places := places[name := i];
      used := used + 1;
    }

    /** The first array. */
    method Allocate()
      requires Valid() && size == 0
      modifies this`v, this`size, this`usedLim
      ensures Valid() && fresh(v) && size == INIT_SIZE && Entries() == old(Entries()) && used == old(used)
    {
      v := new Named?[INIT_SIZE](_ => null);
      size, usedLim := INIT_SIZE, INIT_SIZE / 2;
      assert places == map[];
      assert PowerOfTwo(4) && PowerOfTwo(16);
    }

    /** Allocates or enlarges the array when there is no room for another entry. */
    method MakeRoom()
      requires Valid()
      modifies this`v, this`size, this`usedLim, this`places
      ensures Valid() && (v == old(v) || fresh(v)) && Entries() == old(Entries()) && used < usedLim
      ensures places.Keys == old(places).Keys
    {
      if size == 0 {
        Allocate();
      } else if used == usedLim {
        Enlarge();
      }
    }

    /** lookup: the entry of that name; when there is none, a new one if asked for. */
    method Lookup(name: string, create: bool) returns (r: Named?)
      requires Valid()
      modifies this, v
      ensures Valid() && (v == old(v) || fresh(v))
      ensures name in old(Entries()) ==> r == old(Entries())[name] && Entries() == old(Entries())
      ensures name !in old(Entries()) && !create ==> r == null && Entries() == old(Entries())
      ensures name !in old(Entries()) && create ==>
                r != null && fresh(r) && r.name == name && Entries() == old(Entries())[name := r]
    {
      var h := HashOf(name);
      if size > 0 {
        var i, _ := Search(v, name, h, places);
        if v[i] != null {
          return v[i];
        }
      }
      if !create {
        return null;
      }
      MakeRoom();
      var j, k := EmptySlot(v, name, h, places);
      r := Insert(name, j, k);
    }
  }

  // ---- iteration ----

  /** The entries in slots i and up. */
  ghost function From(s: seq<Named?>, i: nat): seq<Named>
    requires i <= |s|
    decreases |s| - i
  {
    if i == |s| then [] else (if s[i] == null then [] else [s[i]]) + From(s, i + 1)
  }

  class Iterator {
    const v: array<Named?>
    var p: nat
    const end: nat

    ghost predicate Valid() {
      end == v.Length
    }

    /** The entries still to come. */
    ghost function Rest(): seq<Named>
      reads this, v
      requires Valid() && p <= end
    {
      From(v[..], p)
    }

    constructor (table: Table)
      requires table.Valid()
      ensures Valid() && p <= end && v == table.v && Rest() == From(table.v[..], 0)
    {
      v := table.v;
      p := 0;
      end := table.size;
    }

    /** The next entry, or null at the end. */
    method Next() returns (r: Named?)
      requires Valid() && p <= end
      modifies this`p
      ensures p <= end
      ensures if old(Rest()) == [] then r == null && Rest() == [] else r == old(Rest())[0] && Rest() == old(Rest())[1..]
    {
      while p != end
        invariant p <= end && Rest() == old(Rest())
      {
        r := v[p];
        p := p + 1;
        if r != null {
          return;
        }
      }
      r := null;
    }
  }

  /** rest lists the entries placed in slots i and up, each once. */
  ghost predicate Lists(rest: seq<Named>, s: seq<Named?>, places: map<string, nat>, i: nat)
    requires Placed(s, places)
  {
    && (forall n :: n in places && places[n] >= i ==> s[places[n]] in rest)
    && (forall p :: p in rest ==> p.name in places && places[p.name] >= i && s[places[p.name]] == p)
    && (forall a, b :: 0 <= a < b < |rest| ==> rest[a] != rest[b])
  }

  lemma {:induction false} ListsOneMore(rest: seq<Named>, s: seq<Named?>, places: map<string, nat>, i: nat)
    requires Placed(s, places) && i < |s| && s[i] != null && Lists(rest, s, places, i + 1)
    ensures Lists([s[i]] + rest, s, places, i)
  {
    assert s[i] !in rest;
    OneMore(s[i], rest);
  }

  lemma {:induction false} ListsNoMore(rest: seq<Named>, s: seq<Named?>, places: map<string, nat>, i: nat)
    requires Placed(s, places) && i < |s| && s[i] == null && Lists(rest, s, places, i + 1)
    ensures Lists(rest, s, places, i)
  {}

  /** An iterator yields exactly the entries of the table, each once. */
  lemma {:induction false} EachEntryOnce(s: seq<Named?>, places: map<string, nat>, i: nat)
    requires Placed(s, places) && i <= |s|
    ensures Lists(From(s, i), s, places, i)
    decreases |s| - i
  {
    if i < |s| {
      EachEntryOnce(s, places, i + 1);
      if s[i] != null {
        ListsOneMore(From(s, i + 1), s, places, i);
      } else {
        ListsNoMore(From(s, i + 1), s, places, i);
        assert From(s, i) == From(s, i + 1);
      }
    }
  }

  lemma {:induction false} OneMore<T>(x: T, rest: seq<T>)
    requires x !in rest && forall a, b :: 0 <= a < b < |rest| ==> rest[a] != rest[b]
    ensures var all := [x] + rest;
            && (forall a, b :: 0 <= a < b < |all| ==> all[a] != all[b])
            && (forall y :: y in rest ==> y in all) && x in all
            && (forall y :: y in all ==> y == x || y in rest)
  {
    var all := [x] + rest;
    forall y | y in rest
      ensures y in all
    {
      var k :| 0 <= k < |rest| && rest[k] == y;
      assert all[k + 1] == y;
    }
    assert all[0] == x;
  }
}
