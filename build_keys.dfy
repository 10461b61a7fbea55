/** How the sorted build iterator orders the builds of one version: which
    option names go into the build keys (a two-pass "does this option vary
    across the binary builds" analysis), in which order the names are used,
    and the sort-then-reverse that puts the highest keys first. Builds are
    pairs of a spec and whatever the iterator carries beside it. */
module BuildKeys {
  import opened Wrappers
  import opened Seqs
  import opened Builds
  import Idents
  import opened Validation

  type OptionMap = map<string, string>

  /** `Spec::resolve_all_options` with the default option map: every option
      name of a build with the value that build resolves it to. */
  type Resolver = Spec -> OptionMap

  /** The per-name record of the first pass. */
  datatype ChangeCounter = ChangeCounter(last: string, count: nat, useIt: bool)

  /** The default name order (`gcc,python`) used when no order is configured. */
  const DEFAULT_NAME_ORDER: seq<string> := ["gcc", "python"]

  predicate IsSrc(spec: Spec) {
    Idents.IsSource(spec.pkg)
  }

  function NotSrcItem<P>(x: (Spec, P)): bool {
    !IsSrc(x.0)
  }

  /** Build `j` is a binary build that sets the option `n`. */
  predicate Uses<P>(builds: seq<(Spec, P)>, resolve: Resolver, j: nat, n: string) {
    j < |builds| && !IsSrc(builds[j].0) && n in resolve(builds[j].0)
  }

  /** The value build `j` gives option `n`. */
  function ValueAt<P>(builds: seq<(Spec, P)>, resolve: Resolver, j: nat, n: string): string
    requires Uses(builds, resolve, j, n)
  {
    resolve(builds[j].0)[n]
  }

  /** The counter for option `n` after the first `i` builds: created on the
      first binary build that sets `n` with that build's value, counted on
      every such build, and marked for use once a value differs from the one
      it was created with. Source builds are passed over. */
  function CounterUpTo<P>(builds: seq<(Spec, P)>, resolve: Resolver, i: nat, n: string): Option<ChangeCounter>
    requires i <= |builds|
    decreases i
  {
    if i == 0 then None
    else
      var prev := CounterUpTo(builds, resolve, i - 1, n);
      var spec := builds[i - 1].0;
      if IsSrc(spec) || n !in resolve(spec) then prev
      else
        var value := resolve(spec)[n];
        match prev
        case None => Some(ChangeCounter(value, 1, false))
        case Some(c) => Some(ChangeCounter(c.last, c.count + 1, c.useIt || c.last != value))
  }

  /** The number of binary builds among the first `i`. */
  function NonSrcUpTo<P>(builds: seq<(Spec, P)>, i: nat): nat
    requires i <= |builds|
  {
    if i == 0 then 0
    else NonSrcUpTo(builds, i - 1) + (if IsSrc(builds[i - 1].0) then 0 else 1)
  }

  /** The resolved options recorded per binary build, by build ident. */
  function NameValuesUpTo<P>(builds: seq<(Spec, P)>, resolve: Resolver, i: nat): map<Idents.Ident, OptionMap>
    requires i <= |builds|
  {
    if i == 0 then map[]
    else
      var prev := NameValuesUpTo(builds, resolve, i - 1);
      var spec := builds[i - 1].0;
      if IsSrc(spec) then prev else prev[spec.pkg := resolve(spec)]
  }

  function Lookup(changes: map<string, ChangeCounter>, n: string): Option<ChangeCounter> {
    if n in changes then Some(changes[n]) else None
  }

  /** A name goes into the keys when its values differ across the binary
      builds, or when some binary builds do not set it. */
  predicate IsKeyName<P>(builds: seq<(Spec, P)>, resolve: Resolver, n: string) {
    var c := CounterUpTo(builds, resolve, |builds|, n);
    c.Some? && (c.value.useIt || c.value.count != NonSrcUpTo(builds, |builds|))
  }

  function KeyNames<P>(builds: seq<(Spec, P)>, resolve: Resolver): set<string> {
    set j, n | 0 <= j < |builds| && n in resolve(builds[j].0) && IsKeyName(builds, resolve, n) :: n
  }

  // ----- what the first pass computes -----

  /** A counter exists exactly for the names some binary build sets. */
  lemma {:induction false} CounterPresent<P>(builds: seq<(Spec, P)>, resolve: Resolver, i: nat, n: string)
    requires i <= |builds|
    ensures CounterUpTo(builds, resolve, i, n).Some? <==> exists j | 0 <= j < i :: Uses(builds, resolve, j, n)
  {
    if i > 0 {
      CounterPresent(builds, resolve, i - 1, n);
      if Uses(builds, resolve, i - 1, n) {
        assert CounterUpTo(builds, resolve, i, n).Some?;
      }
    }
  }

  /** `last` keeps the value of the first binary build that sets the name:
      it is never updated. */
  lemma {:induction false} CounterLast<P>(builds: seq<(Spec, P)>, resolve: Resolver, i: nat, n: string, f: nat)
    requires f < i <= |builds|
    requires Uses(builds, resolve, f, n)
    requires forall j | 0 <= j < f :: !Uses(builds, resolve, j, n)
    ensures CounterUpTo(builds, resolve, i, n).Some?
    ensures CounterUpTo(builds, resolve, i, n).value.last == ValueAt(builds, resolve, f, n)
  {
    if i - 1 == f {
      CounterPresent(builds, resolve, f, n);
    } else {
      CounterLast(builds, resolve, i - 1, n, f);
    }
  }

  /** `use_it` holds exactly when some binary build sets the name to a value
      other than the counter's `last`. */
  lemma {:induction false} CounterUseIt<P>(builds: seq<(Spec, P)>, resolve: Resolver, i: nat, n: string)
    requires i <= |builds|
    requires CounterUpTo(builds, resolve, i, n).Some?
    ensures CounterUpTo(builds, resolve, i, n).value.useIt <==>
      exists j | 0 <= j < i && Uses(builds, resolve, j, n) ::
        ValueAt(builds, resolve, j, n) != CounterUpTo(builds, resolve, i, n).value.last
  {
    var c := CounterUpTo(builds, resolve, i, n).value;
    var prev := CounterUpTo(builds, resolve, i - 1, n);
    if !Uses(builds, resolve, i - 1, n) {
      CounterUseIt(builds, resolve, i - 1, n);
    } else if prev.None? {
      CounterPresent(builds, resolve, i - 1, n);
      assert forall j | 0 <= j < i - 1 :: !Uses(builds, resolve, j, n);
    } else {
      CounterUseIt(builds, resolve, i - 1, n);
      assert prev.value.last == c.last;
    }
  }

  /** The count is the number of binary builds that set the name. */
  lemma {:induction false} CounterCount<P>(builds: seq<(Spec, P)>, resolve: Resolver, i: nat, n: string)
    requires i <= |builds|
    ensures CounterUpTo(builds, resolve, i, n).Some? ==>
      CounterUpTo(builds, resolve, i, n).value.count == |Filter(builds[..i], UsesName(resolve, n))|
    ensures CounterUpTo(builds, resolve, i, n).None? ==> Filter(builds[..i], UsesName(resolve, n)) == []
  {
    if i > 0 {
      CounterCount(builds, resolve, i - 1, n);
      assert builds[..i] == builds[..i - 1] + [builds[i - 1]];
      FilterConcat(builds[..i - 1], [builds[i - 1]], UsesName(resolve, n));
      assert [builds[i - 1]][1..] == [];
    }
  }

  function UsesName<P>(resolve: Resolver, n: string): ((Spec, P)) -> bool {
    (x: (Spec, P)) => !IsSrc(x.0) && n in resolve(x.0)
  }

  /** Source builds are not counted among the binary builds. */
  lemma {:induction false} NonSrcCount<P>(builds: seq<(Spec, P)>, i: nat)
    requires i <= |builds|
    ensures NonSrcUpTo(builds, i) == |Filter(builds[..i], NotSrcItem)|
  {
    if i > 0 {
      NonSrcCount(builds, i - 1);
      assert builds[..i] == builds[..i - 1] + [builds[i - 1]];
      FilterConcat(builds[..i - 1], [builds[i - 1]], NotSrcItem);
      assert [builds[i - 1]][1..] == [];
    }
  }

  /** Source builds leave no options behind for their keys. */
  lemma {:induction false} NameValuesOnlyBinary<P>(builds: seq<(Spec, P)>, resolve: Resolver, i: nat, id: Idents.Ident)
    requires i <= |builds|
    requires id in NameValuesUpTo(builds, resolve, i)
    ensures exists j | 0 <= j < i :: !IsSrc(builds[j].0) && builds[j].0.pkg == id
  {
    if i > 0 {
      var spec := builds[i - 1].0;
      if IsSrc(spec) || spec.pkg != id {
        NameValuesOnlyBinary(builds, resolve, i - 1, id);
      }
    }
  }

  /** Filtering by a stronger predicate keeps fewer elements, and as many
      exactly when the two agree on the elements. */
  lemma {:induction false} FilterStrongerLen<T>(s: seq<T>, p: T -> bool, q: T -> bool)
    requires forall i | 0 <= i < |s| :: p(s[i]) ==> q(s[i])
    ensures |Filter(s, p)| <= |Filter(s, q)|
    ensures |Filter(s, p)| == |Filter(s, q)| <==> forall i | 0 <= i < |s| :: q(s[i]) ==> p(s[i])
  {
    if s != [] {
      FilterStrongerLen(s[1..], p, q);
      assert forall i | 1 <= i < |s| :: s[1..][i - 1] == s[i];
    }
  }

  /** A name is a key name exactly when it has a counter that is marked for
      use, or when some binary build does not set it. */
  lemma KeyNameIff<P>(builds: seq<(Spec, P)>, resolve: Resolver, n: string)
    ensures IsKeyName(builds, resolve, n) <==>
      && CounterUpTo(builds, resolve, |builds|, n).Some?
      && (|| CounterUpTo(builds, resolve, |builds|, n).value.useIt
          || exists k | 0 <= k < |builds| :: !IsSrc(builds[k].0) && n !in resolve(builds[k].0))
  {
    var c := CounterUpTo(builds, resolve, |builds|, n);
    if c.Some? {
      CounterCount(builds, resolve, |builds|, n);
      NonSrcCount(builds, |builds|);
      assert builds[..|builds|] == builds;
      FilterStrongerLen(builds, UsesName(resolve, n), NotSrcItem);
    }
  }

  /** The names the counters mark as worth keying are the key names. */
  lemma KeyNamesFromChanges<P>(builds: seq<(Spec, P)>, resolve: Resolver, changes: map<string, ChangeCounter>, nonSrc: nat)
    requires forall n :: Lookup(changes, n) == CounterUpTo(builds, resolve, |builds|, n)
    requires nonSrc == |Filter(builds, NotSrcItem)|
    ensures forall n :: WorthKeying(changes, nonSrc, n) <==> n in KeyNames(builds, resolve)
  {
    NonSrcCount(builds, |builds|);
    assert builds[..|builds|] == builds;
    forall n ensures WorthKeying(changes, nonSrc, n) <==> n in KeyNames(builds, resolve) {
      assert Lookup(changes, n) == CounterUpTo(builds, resolve, |builds|, n);
      if WorthKeying(changes, nonSrc, n) {
        CounterPresent(builds, resolve, |builds|, n);
        var j :| 0 <= j < |builds| && Uses(builds, resolve, j, n);
        assert n in resolve(builds[j].0) && IsKeyName(builds, resolve, n);
        assert n in KeyNames(builds, resolve);
      }
      if n in KeyNames(builds, resolve) {
        var j :| 0 <= j < |builds| && n in resolve(builds[j].0) && IsKeyName(builds, resolve, n);
      }
    }
  }

  // ----- the first pass as a loop -----

  /** The first pass over the builds: the number of binary builds, their
      resolved options by ident, and one counter per option name. */
  method CountChanges<P>(builds: seq<(Spec, P)>, resolve: Resolver)
    returns (nonSrc: nat, nameValues: map<Idents.Ident, OptionMap>, changes: map<string, ChangeCounter>)
    ensures nonSrc == |Filter(builds, NotSrcItem)|
    ensures nameValues == NameValuesUpTo(builds, resolve, |builds|)
    ensures forall n :: Lookup(changes, n) == CounterUpTo(builds, resolve, |builds|, n)
  {
    nonSrc, nameValues, changes := 0, map[], map[];
    var i := 0;
    while i < |builds|
      invariant 0 <= i <= |builds|
      invariant nonSrc == NonSrcUpTo(builds, i)
      invariant nameValues == NameValuesUpTo(builds, resolve, i)
      invariant forall n :: Lookup(changes, n) == CounterUpTo(builds, resolve, i, n)
    {
      var spec := builds[i].0;
      if IsSrc(spec) {
        forall n ensures CounterUpTo(builds, resolve, i + 1, n) == CounterUpTo(builds, resolve, i, n) {
          CounterSkip(builds, resolve, i, n);
        }
        i := i + 1;
        continue;
      }
      nonSrc := nonSrc + 1;
      var options := resolve(spec);
      changes := CountOptions(builds, resolve, i, options, changes);
      nameValues := nameValues[spec.pkg := options];
      i := i + 1;
    }
    NonSrcCount(builds, |builds|);
    assert builds[..|builds|] == builds;
  }

  /** The inner loop of the first pass: every option of binary build `i`
      updates the counter of its name. */
  method CountOptions<P>(builds: seq<(Spec, P)>, resolve: Resolver, i: nat, options: OptionMap, changes0: map<string, ChangeCounter>)
    returns (changes: map<string, ChangeCounter>)
    requires i < |builds| && !IsSrc(builds[i].0) && options == resolve(builds[i].0)
    requires forall n :: Lookup(changes0, n) == CounterUpTo(builds, resolve, i, n)
    ensures forall n :: Lookup(changes, n) == CounterUpTo(builds, resolve, i + 1, n)
  {
    changes := changes0;
    var todo := options.Keys;
    ghost var done: set<string> := {};
    while todo != {}
      invariant todo + done == options.Keys && todo !! done
      invariant CountedExcept(builds, resolve, i, changes, done)
      decreases |todo|
    {
      var name :| name in todo;
      var value := options[name];
      var seen := if name in changes then changes[name] else ChangeCounter(value, 0, false);
      var counter := seen.(count := seen.count + 1);
      if !counter.useIt && counter.last != value {
        counter := counter.(useIt := true);
      }
      assert counter == ChangeCounter(seen.last, seen.count + 1, seen.useIt || seen.last != value);
      MoveDone(todo, done, name, options.Keys);
      CountedStep(builds, resolve, i, changes, done, name, value, seen, counter);
      changes := changes[name := counter];
      todo := todo - {name};
      done := done + {name};
    }
    CountedAll(builds, resolve, i, changes, done);
  }

  /** Moving one name from the names to do to the names done. */
  lemma MoveDone(todo: set<string>, done: set<string>, name: string, all: set<string>)
    requires todo + done == all && todo !! done && name in todo
    ensures name in all && name !in done
    ensures (todo - {name}) + (done + {name}) == all && (todo - {name}) !! (done + {name})
  {
  }

  /** The counters after the options in `done` of build `i` were counted. */
  ghost predicate CountedExcept<P>(builds: seq<(Spec, P)>, resolve: Resolver, i: nat, changes: map<string, ChangeCounter>, done: set<string>)
    requires i < |builds|
  {
    && (forall n | n in done :: Lookup(changes, n) == CounterUpTo(builds, resolve, i + 1, n))
    && (forall n | n !in done :: Lookup(changes, n) == CounterUpTo(builds, resolve, i, n))
  }

  lemma CountedStep<P>(builds: seq<(Spec, P)>, resolve: Resolver, i: nat, changes: map<string, ChangeCounter>,
                       done: set<string>, name: string, value: string, seen: ChangeCounter, counter: ChangeCounter)
    requires i < |builds| && !IsSrc(builds[i].0) && name in resolve(builds[i].0) && name !in done
    requires CountedExcept(builds, resolve, i, changes, done)
    requires value == resolve(builds[i].0)[name]
    requires seen == if name in changes then changes[name] else ChangeCounter(value, 0, false)
    requires counter == ChangeCounter(seen.last, seen.count + 1, seen.useIt || seen.last != value)
    ensures CountedExcept(builds, resolve, i, changes[name := counter], done + {name})
  {
    CounterStep(builds, resolve, i, name);
    assert Lookup(changes, name) == CounterUpTo(builds, resolve, i, name);
    assert Some(counter) == CounterUpTo(builds, resolve, i + 1, name);
  }

  lemma CountedAll<P>(builds: seq<(Spec, P)>, resolve: Resolver, i: nat, changes: map<string, ChangeCounter>, done: set<string>)
    requires i < |builds| && done == resolve(builds[i].0).Keys
    requires CountedExcept(builds, resolve, i, changes, done)
    ensures forall n :: Lookup(changes, n) == CounterUpTo(builds, resolve, i + 1, n)
  {
    forall n | n !in done ensures CounterUpTo(builds, resolve, i + 1, n) == CounterUpTo(builds, resolve, i, n) {
      CounterSkip(builds, resolve, i, n);
    }
  }

  /** One binary build that sets `n` updates the counter of `n` as the
      inner loop does. */
  lemma CounterStep<P>(builds: seq<(Spec, P)>, resolve: Resolver, i: nat, n: string)
    requires i < |builds| && !IsSrc(builds[i].0) && n in resolve(builds[i].0)
    ensures CounterUpTo(builds, resolve, i + 1, n) ==
      match CounterUpTo(builds, resolve, i, n)
      case None => Some(ChangeCounter(resolve(builds[i].0)[n], 1, false))
      case Some(c) => Some(ChangeCounter(c.last, c.count + 1, c.useIt || c.last != resolve(builds[i].0)[n]))
  {
  }

  /** Builds that do not set `n` leave its counter alone. */
  lemma CounterSkip<P>(builds: seq<(Spec, P)>, resolve: Resolver, i: nat, n: string)
    requires i < |builds| && (IsSrc(builds[i].0) || n !in resolve(builds[i].0))
    ensures CounterUpTo(builds, resolve, i + 1, n) == CounterUpTo(builds, resolve, i, n)
  {
  }

  // ----- string order -----

  predicate StrLess(a: string, b: string) {
    LexLess(a, b, CharLess)
  }

  function StrLe(a: string, b: string): bool {
    !StrLess(b, a)
  }

  function Same(s: string): string { s }

  predicate StrictlyAscending(s: seq<string>) {
    forall i, j | 0 <= i < j < |s| :: StrLess(s[i], s[j])
  }

  lemma StrLessStrictTotal()
    ensures StrictTotalOrder(StrLess)
  {
    CharLessStrictTotal();
    forall a: string ensures !StrLess(a, a) {
      LexIrreflexive(a, CharLess);
    }
    forall a: string, b: string, c: string | StrLess(a, b) && StrLess(b, c) ensures StrLess(a, c) {
      LexTransitive(a, b, c, CharLess);
    }
    forall a: string, b: string | a != b ensures StrLess(a, b) || StrLess(b, a) {
      LexTotal(a, b, CharLess);
    }
  }

  lemma StrLeTotalPreorder()
    ensures TotalPreorder(StrLe)
  {
    StrLessStrictTotal();
  }

  /** A sorted sequence without repeats is strictly ascending. */
  lemma SortedDistinctAscending(s: seq<string>)
    requires SortedBy(s, Same, StrLe) && NoDup(s)
    ensures StrictlyAscending(s)
  {
    StrLessStrictTotal();
    forall i, j | 0 <= i < j < |s| ensures StrLess(s[i], s[j]) {
      assert StrLe(Same(s[i]), Same(s[j]));
    }
  }

  lemma MultisetNoDup<T>(a: seq<T>, b: seq<T>)
    requires multiset(a) == multiset(b) && NoDup(a)
    ensures NoDup(b)
  {
    forall i, j | 0 <= i < j < |b| ensures b[i] != b[j] {
      if b[i] == b[j] {
        var x := b[i];
        assert multiset(b)[x] >= 2 by {
          assert b == b[..i] + [b[i]] + b[i + 1..j] + [b[j]] + b[j + 1..];
        }
        MultiplicityOne(a, x);
        assert false;
      }
    }
  }

  lemma {:induction false} MultiplicityOne<T>(a: seq<T>, x: T)
    requires NoDup(a)
    ensures multiset(a)[x] <= 1
  {
    if a != [] {
      assert a == [a[0]] + a[1..];
      MultiplicityOne(a[1..], x);
      if a[0] == x {
        assert x !in a[1..];
      }
    }
  }

  /** The first element of an ascending sequence is below all the others. */
  lemma AscendingHead(s: seq<string>)
    requires StrictlyAscending(s) && s != []
    ensures forall x | x in s :: x == s[0] || StrLess(s[0], x)
  {
    forall x | x in s ensures x == s[0] || StrLess(s[0], x) {
      var p :| 0 <= p < |s| && s[p] == x;
    }
  }

  /** Two strictly ascending sequences with the same elements are equal. */
  lemma {:induction false} AscendingUnique(a: seq<string>, b: seq<string>)
    requires StrictlyAscending(a) && StrictlyAscending(b)
    requires forall n :: n in a <==> n in b
    ensures a == b
  {
    StrLessStrictTotal();
    assert (a == [] || a[0] in b) && (b == [] || b[0] in a);
    if a != [] && b != [] {
      AscendingHead(a);
      AscendingHead(b);
      assert a[0] == b[0];
      forall n ensures n in a[1..] <==> n in b[1..] {
        if n in a[1..] {
          var p :| 1 <= p < |a| && a[p] == n;
          assert StrLess(a[0], n);
          assert n in a;
          var q :| 0 <= q < |b| && b[q] == n;
          assert q != 0;
          assert b[1..][q - 1] == n;
        }
        if n in b[1..] {
          var p :| 1 <= p < |b| && b[p] == n;
          assert StrLess(b[0], n);
          assert n in b;
          var q :| 0 <= q < |a| && a[q] == n;
          assert q != 0;
          assert a[1..][q - 1] == n;
        }
      }
      AscendingUnique(a[1..], b[1..]);
      assert a == [a[0]] + a[1..] && b == [b[0]] + b[1..];
    }
  }

  // ----- the second pass: key names and their order -----

  function Within(keys: set<string>): string -> bool {
    n => n in keys
  }

  function Outside(names: seq<string>): string -> bool {
    n => n !in names
  }

  /** The counters that make a name worth keying on. */
  predicate WorthKeying(changes: map<string, ChangeCounter>, nonSrc: nat, n: string) {
    n in changes && (changes[n].useIt || changes[n].count != nonSrc)
  }

  /** The key names in alphabetical order, each once. */
  method KeyEntryNames(changes: map<string, ChangeCounter>, nonSrc: nat) returns (names: seq<string>)
    ensures StrictlyAscending(names)
    ensures forall n :: n in names <==> WorthKeying(changes, nonSrc, n)
  {
    var todo := changes.Keys;
    var collected: seq<string> := [];
    while todo != {}
      invariant todo <= changes.Keys
      invariant NoDup(collected)
      invariant forall n :: n in collected ==> n !in todo
      invariant forall n :: n in collected <==> n !in todo && WorthKeying(changes, nonSrc, n)
      decreases |todo|
    {
      var name :| name in todo;
      if changes[name].useIt || changes[name].count != nonSrc {
        collected := collected + [name];
      }
      todo := todo - {name};
    }
    StrLeTotalPreorder();
    names := SortByKey(collected, Same, StrLe);
    SortByKeySorted(collected, Same, StrLe);
    MultisetNoDup(collected, names);
    SortedDistinctAscending(names);
    forall n ensures n in names <==> n in collected {
      assert n in names <==> n in multiset(names);
      assert n in collected <==> n in multiset(collected);
    }
  }

  /** The name order of the keys: the configured names that are key names,
      in the configured order, then every other key name alphabetically. */
  predicate IsOrderedNames(order: seq<string>, keys: set<string>, names: seq<string>) {
    var first := Filter(order, Within(keys));
    && |first| <= |names|
    && names[..|first|] == first
    && StrictlyAscending(names[|first|..])
    && (forall n | n in names[|first|..] :: n in keys && n !in order)
    && (forall n | n in keys && n !in order :: n in names[|first|..])
  }

  /** The ordered names hold every key name and no other name. */
  lemma OrderedNamesAreKeyNames(order: seq<string>, keys: set<string>, names: seq<string>)
    requires IsOrderedNames(order, keys, names)
    ensures forall n :: n in names <==> n in keys
  {
    var first := Filter(order, Within(keys));
    assert names == first + names[|first|..];
    forall n ensures n in names <==> n in keys {
      if n in first {
        assert Within(keys)(n);
      }
      if n in keys && n in order {
        assert n in first;
      }
    }
  }

  /** There is one way to order a set of key names. */
  lemma OrderedNamesUnique(order: seq<string>, keys: set<string>, a: seq<string>, b: seq<string>)
    requires IsOrderedNames(order, keys, a) && IsOrderedNames(order, keys, b)
    ensures a == b
  {
    var first := Filter(order, Within(keys));
    AscendingUnique(a[|first|..], b[|first|..]);
    assert a == first + a[|first|..];
    assert b == first + b[|first|..];
  }

  /** `ordered_names`: the configured names that are key names, then the
      remaining key names in the order given. */
  method OrderedNames(order: seq<string>, keyNames: seq<string>) returns (names: seq<string>)
    ensures names == Filter(order, Within(set n | n in keyNames)) + Filter(keyNames, Outside(order))
  {
    var keys := set n | n in keyNames;
    var first := Filter(order, Within(keys));
    names := first;
    var i := 0;
    while i < |keyNames|
      invariant 0 <= i <= |keyNames|
      invariant names == first + Filter(keyNames[..i], Outside(order))
    {
      OrderedNamesStep(first, keyNames, i, order);
      if keyNames[i] !in order {
        names := names + [keyNames[i]];
      }
      i := i + 1;
    }
    assert keyNames[..|keyNames|] == keyNames;
  }

  /** One step of the loop in `OrderedNames`. */
  lemma OrderedNamesStep(first: seq<string>, keyNames: seq<string>, i: nat, order: seq<string>)
    requires i < |keyNames|
    ensures keyNames[i] !in order ==>
      first + Filter(keyNames[..i + 1], Outside(order)) == first + Filter(keyNames[..i], Outside(order)) + [keyNames[i]]
    ensures keyNames[i] in order ==>
      first + Filter(keyNames[..i + 1], Outside(order)) == first + Filter(keyNames[..i], Outside(order))
  {
    FilterSnoc(keyNames, i, Outside(order));
    assert Outside(order)(keyNames[i]) == (keyNames[i] !in order);
  }

  /** Over alphabetically sorted key names, the configured names come first
      and the remaining key names follow alphabetically. */
  lemma OrderedNamesShape(order: seq<string>, keyNames: seq<string>)
    requires StrictlyAscending(keyNames)
    ensures IsOrderedNames(order, (set n | n in keyNames),
                           Filter(order, Within(set n | n in keyNames)) + Filter(keyNames, Outside(order)))
  {
    var first := Filter(order, Within(set n | n in keyNames));
    var rest := Filter(keyNames, Outside(order));
    var names := first + rest;
    assert names[..|first|] == first;
    assert names[|first|..] == rest;
    FilterAscending(keyNames, Outside(order));
    forall n | n in rest ensures n in keyNames && n !in order {
      assert Outside(order)(n);
    }
  }

  /** A filtered ascending sequence is ascending. */
  lemma {:induction false} FilterAscending(s: seq<string>, p: string -> bool)
    requires StrictlyAscending(s)
    ensures StrictlyAscending(Filter(s, p))
  {
    if s != [] {
      FilterAscending(s[1..], p);
      if p(s[0]) {
        var t := Filter(s[1..], p);
        forall j | 0 <= j < |t| ensures StrLess(s[0], t[j]) {
          assert t[j] in s[1..];
        }
        assert Filter(s, p) == [s[0]] + t;
      }
    }
  }

  // ----- the sort -----

  function NameValuesFor(nameValues: map<Idents.Ident, OptionMap>, id: Idents.Ident): OptionMap {
    if id in nameValues then nameValues[id] else map[]
  }

  /** `make_option_values_build_key`: a build's key from the ordered names
      and the options recorded for it (none for a source build). */
  function BuildKeyOf<P, K>(names: seq<string>, nameValues: map<Idents.Ident, OptionMap>,
                            makeKey: (Idents.Ident, seq<string>, OptionMap) -> K): ((Spec, P)) -> K
  {
    (x: (Spec, P)) => makeKey(x.0.pkg, names, NameValuesFor(nameValues, x.0.pkg))
  }

  /** Sorting by key and then reversing gives a permutation of the builds in
      non-increasing key order. */
  lemma SortReversedDescending<T, K(!new)>(s: seq<T>, key: T -> K, le: (K, K) -> bool)
    requires TotalPreorder(le)
    ensures multiset(Reverse(SortByKey(s, key, le))) == multiset(s)
    ensures forall i, j | 0 <= i < j < |s| ::
      le(key(Reverse(SortByKey(s, key, le))[j]), key(Reverse(SortByKey(s, key, le))[i]))
  {
    var sorted := SortByKey(s, key, le);
    ReverseMultiset(sorted);
    SortByKeySorted(s, key, le);
  }
}
