/** The shell's environment: a fixed table of entries searched from the front. */
module Environment {
  import opened Optional

  const SIZE: nat := 20

  /** An entry. The key is a copy; the value is the pointer that was passed in. */
  class Entry<V(0)> {
    const key: string
    var value: V

    constructor (key: string, value: V)
      ensures this.key == key && this.value == value
    {
      this.key, this.value := key, value;
    }
  }

  type Pairs<V> = seq<(string, V)>

  /** The first entry with the key. */
  function Lookup<V>(pairs: Pairs<V>, key: string): Option<V> {
    if pairs == [] then None
    else if pairs[0].0 == key then Some(pairs[0].1)
    else Lookup(pairs[1..], key)
  }

  /** Changes the first entry with the key, or adds one at the end. */
  function Overwrite<V>(pairs: Pairs<V>, key: string, value: V): Pairs<V> {
    if pairs == [] then [(key, value)]
    else if pairs[0].0 == key then [(key, value)] + pairs[1..]
    else [pairs[0]] + Overwrite(pairs[1..], key, value)
  }

  lemma {:induction false} OverwriteLookup<V>(pairs: Pairs<V>, key: string, value: V, k: string)
    ensures Lookup(Overwrite(pairs, key, value), k) == if k == key then Some(value) else Lookup(pairs, k)
  {
    if pairs != [] && pairs[0].0 != key {
      OverwriteLookup(pairs[1..], key, value, k);
    }
  }

  lemma {:induction false} AppendLookup<V>(pairs: Pairs<V>, key: string, value: V, k: string)
    ensures Lookup(pairs + [(key, value)], k)
         == if k == key && Lookup(pairs, k).None? then Some(value) else Lookup(pairs, k)
  {
    if pairs != [] {
      AppendLookup(pairs[1..], key, value, k);
      assert (pairs + [(key, value)])[1..] == pairs[1..] + [(key, value)];
    }
  }

  lemma OverwriteAt<V>(pairs: Pairs<V>, key: string, value: V)
    requires pairs != [] && pairs[0].0 == key
    ensures Overwrite(pairs, key, value) == [(key, value)] + pairs[1..] && Lookup(pairs, key).Some?
  {}

  lemma NotHere<V>(pairs: Pairs<V>, key: string, value: V)
    requires pairs != [] && pairs[0].0 != key
    ensures Overwrite(pairs, key, value) == [pairs[0]] + Overwrite(pairs[1..], key, value)
    ensures Lookup(pairs, key) == Lookup(pairs[1..], key)
  {}

  lemma NothingThere<V>(key: string, value: V)
    ensures Overwrite([], key, value) == [(key, value)] && Lookup<V>([], key).None?
  {}

  /** One call of `setenv`. */
  datatype Call<V> = Call(key: string, value: V, mode: int)

  predicate Succeeds<V>(pairs: Pairs<V>, call: Call<V>) {
    || (call.mode == 0 && |pairs| < SIZE)
    || (call.mode == 1 && (|pairs| < SIZE || Lookup(pairs, call.key).Some?))
  }

  function Set<V>(pairs: Pairs<V>, call: Call<V>): Pairs<V> {
    if !Succeeds(pairs, call) then pairs
    else if call.mode == 0 then pairs + [(call.key, call.value)]
    else Overwrite(pairs, call.key, call.value)
  }

  function SetAll<V>(pairs: Pairs<V>, calls: seq<Call<V>>): Pairs<V>
    decreases |calls|
  {
    if calls == [] then pairs else SetAll(Set(pairs, calls[0]), calls[1..])
  }

  /** The same calls on a map. Only the number of entries in the table, which duplicates
      use up as well, still matters for success. */
  function SetMap<V>(m: map<string, V>, used: nat, call: Call<V>): (map<string, V>, nat) {
    if call.mode == 0 && used < 20 then
      (if call.key in m then m else m[call.key := call.value], used + 1)
    else if call.mode == 1 && call.key in m then (m[call.key := call.value], used)
    else if call.mode == 1 && used < 20 then (m[call.key := call.value], used + 1)
    else (m, used)
  }

  function SetMapAll<V>(m: map<string, V>, used: nat, calls: seq<Call<V>>): (map<string, V>, nat)
    decreases |calls|
  {
    if calls == [] then (m, used)
    else
      var (m', used') := SetMap(m, used, calls[0]);
      SetMapAll(m', used', calls[1..])
  }

  ghost predicate SameAs<V(!new)>(pairs: Pairs<V>, m: map<string, V>) {
    forall key :: Lookup(pairs, key) == if key in m then Some(m[key]) else None
  }

  lemma {:induction false} OverwriteSize<V>(pairs: Pairs<V>, key: string, value: V)
    ensures |Overwrite(pairs, key, value)| == |pairs| + if Lookup(pairs, key).Some? then 0 else 1
  {
    if pairs != [] && pairs[0].0 != key {
      OverwriteSize(pairs[1..], key, value);
    }
  }

  lemma SetIsMap<V(!new)>(pairs: Pairs<V>, m: map<string, V>, call: Call<V>)
    requires SameAs(pairs, m)
    ensures var (m', used') := SetMap(m, |pairs|, call);
      SameAs(Set(pairs, call), m') && |Set(pairs, call)| == used'
  {
    OverwriteSize(pairs, call.key, call.value);
    var m' := SetMap(m, |pairs|, call).0;
    assert Lookup(pairs, call.key) == if call.key in m then Some(m[call.key]) else None;
    forall k ensures Lookup(Set(pairs, call), k) == if k in m' then Some(m'[k]) else None {
      OverwriteLookup(pairs, call.key, call.value, k);
      AppendLookup(pairs, call.key, call.value, k);
    }
  }

  /** Seen through `getenv`, any run of `setenv` calls is a run of map updates: mode 1
      overwrites, mode 0 adds a key only if it is absent, and a call that fails does nothing. */
  lemma {:induction false} RunsAreMaps<V(!new)>(pairs: Pairs<V>, m: map<string, V>, calls: seq<Call<V>>)
    requires SameAs(pairs, m)
    ensures var (m', used') := SetMapAll(m, |pairs|, calls);
      SameAs(SetAll(pairs, calls), m') && |SetAll(pairs, calls)| == used'
    decreases |calls|
  {
    if calls != [] {
      SetIsMap(pairs, m, calls[0]);
      RunsAreMaps(Set(pairs, calls[0]), SetMap(m, |pairs|, calls[0]).0, calls[1..]);
    }
  }

  class EnvironmentTable<V(0)> {
    const vars: array<Entry?<V>>
    ghost var pairs: Pairs<V>

    /** The entries that are not null come first, each an object of its own. */
    ghost predicate Valid()
      reads this, vars, set i | 0 <= i < vars.Length && vars[i] != null :: vars[i]
    {
      && |pairs| <= vars.Length == SIZE
      && (forall i :: 0 <= i < SIZE ==> (vars[i] != null <==> i < |pairs|))
      && (forall i :: 0 <= i < |pairs| ==> (vars[i].key, vars[i].value) == pairs[i])
      && (forall i, j :: 0 <= i < j < |pairs| ==> vars[i] != vars[j])
    }

    constructor ()
      ensures Valid() && pairs == [] && fresh(vars)
    {
      vars := new Entry?<V>[SIZE](_ => null);
      pairs := [];
    }

    method Getenv(key: string) returns (value: Option<V>)
      requires Valid()
      ensures value == Lookup(pairs, key)
    {
      assert pairs[0..] == pairs;
      for index := 0 to SIZE
        invariant index <= |pairs|
        invariant Lookup(pairs, key) == Lookup(pairs[index..], key)
      {
        if vars[index] == null {
          return None;
        } else if vars[index].key == key {
          return Some(vars[index].value);
        }
        assert pairs[index..][1..] == pairs[index + 1..];
      }
      value := None;
    }

    method AddEntry(index: nat, key: string, value: V)
      requires Valid() && index == |pairs| < SIZE
      modifies this, vars
      ensures Valid() && pairs == old(pairs) + [(key, value)]
      ensures forall i :: 0 <= i < SIZE && vars[i] != null ==> vars[i] == old(vars[i]) || fresh(vars[i])
    {
      vars[index] := new Entry(key, value);
      pairs := pairs + [(key, value)];
    }

    method SetValue(index: nat, value: V)
      requires Valid() && index < |pairs|
      modifies `pairs, vars[index]
      ensures Valid() && pairs == old(pairs)[index := (old(pairs)[index].0, value)]
      ensures forall i :: 0 <= i < SIZE && vars[i] != null ==> vars[i] == old(vars[i]) || fresh(vars[i])
    {
      vars[index].value := value;
      pairs := pairs[index := (pairs[index].0, value)];
    }

    method AddOnly(key: string, value: V) returns (ok: bool)
      requires Valid()
      modifies this, vars
      ensures Valid() && ok == (|old(pairs)| < SIZE)
      ensures pairs == if ok then old(pairs) + [(key, value)] else old(pairs)
      ensures forall i :: 0 <= i < SIZE && vars[i] != null ==> vars[i] == old(vars[i]) || fresh(vars[i])
    {
      for index := 0 to SIZE
        invariant index <= |pairs| && pairs == old(pairs) && Valid()
      {
        if vars[index] == null {
          AddEntry(index, key, value);
          return true;
        }
      }
      ok := false;
    }

    method AddOrOverwrite(key: string, value: V) returns (ok: bool)
      requires Valid()
      modifies this, vars, set i | 0 <= i < vars.Length && vars[i] != null :: vars[i]
      ensures Valid()
      ensures ok == (|old(pairs)| < SIZE || Lookup(old(pairs), key).Some?)
      ensures pairs == if ok then Overwrite(old(pairs), key, value) else old(pairs)
      ensures forall i :: 0 <= i < SIZE && vars[i] != null ==> vars[i] == old(vars[i]) || fresh(vars[i])
    {
      hide Overwrite, Lookup;
      assert pairs[0..] == pairs && pairs[..0] == [];
      NothingThere(key, value);
      for index := 0 to SIZE
        invariant index <= |pairs| && pairs == old(pairs) && Valid()
        invariant forall i :: 0 <= i < SIZE ==> vars[i] == old(vars[i])
        invariant Lookup(pairs, key) == Lookup(pairs[index..], key)
        invariant Overwrite(pairs, key, value) == pairs[..index] + Overwrite(pairs[index..], key, value)
      {
        if vars[index] == null {
          assert pairs[..index] == pairs;
          AddEntry(index, key, value);
          return true;
        } else if vars[index].key == key {
          OverwriteAt(pairs[index..], key, value);
          assert pairs[..index] + ([(key, value)] + pairs[index..][1..]) == pairs[index := (key, value)];
          SetValue(index, value);
          return true;
        }
        NotHere(pairs[index..], key, value);
        assert pairs[index..][1..] == pairs[index + 1..] && pairs[..index] + [pairs[index]] == pairs[..index + 1];
      }
      ok := false;
    }

    /** Returns true on success. */
    method Setenv(key: string, value: V, mode: int) returns (ok: bool)
      requires Valid()
      modifies this, vars, set i | 0 <= i < vars.Length && vars[i] != null :: vars[i]
      ensures Valid()
      ensures ok == Succeeds(old(pairs), Call(key, value, mode))
      ensures pairs == Set(old(pairs), Call(key, value, mode))
      ensures forall i :: 0 <= i < SIZE && vars[i] != null ==> vars[i] == old(vars[i]) || fresh(vars[i])
    {
      if mode == 0 {
        ok := AddOnly(key, value);
      } else if mode == 1 {
        ok := AddOrOverwrite(key, value);
      } else {
        ok := false;
      }
    }

    /** A run of calls. Read back with `getenv`, the table is the map that the run makes. */
    method SetenvAll(calls: seq<Call<V>>)
      requires Valid()
      modifies this, vars, set i | 0 <= i < vars.Length && vars[i] != null :: vars[i]
      ensures Valid() && pairs == SetAll(old(pairs), calls)
      ensures forall i :: 0 <= i < SIZE && vars[i] != null ==> vars[i] == old(vars[i]) || fresh(vars[i])
    {
      assert calls[0..] == calls;
      for n := 0 to |calls|
        invariant Valid() && SetAll(old(pairs), calls) == SetAll(pairs, calls[n..])
        invariant forall i :: 0 <= i < SIZE && vars[i] != null ==> vars[i] == old(vars[i]) || fresh(vars[i])
      {
        assert calls[n..][0] == calls[n] && calls[n..][1..] == calls[n + 1..];
        var _ := Setenv(calls[n].key, calls[n].value, calls[n].mode);
      }
    }
  }
}
