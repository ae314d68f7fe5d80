/**
 * The language catalog: the grammar registry's keys, with the utility
 * helpers and the non-grammar values dropped, sorted by lower-cased name.
 */
module Catalog {
  import opened Text
  import opened Sequences

  /** The kinds of value a key of the grammar registry can hold, as JavaScript distinguishes them. */
  datatype ValueKind =
    | Undefined
    | Null
    | Boolean(b: bool)
    | Number(nonZero: bool)   // nonZero is false for 0, -0 and NaN
    | BigInt(nonZero: bool)
    | Str(text: string)
    | Symbol
    | Object
    | Function

  /** The answers of JavaScript's `typeof`. */
  datatype TypeTag = UndefinedType | ObjectType | BooleanType | NumberType | BigIntType | StringType | SymbolType | FunctionType

  function TypeOf(v: ValueKind): TypeTag
  {
    match v
    case Undefined => UndefinedType
    case Null => ObjectType
    case Boolean(_) => BooleanType
    case Number(_) => NumberType
    case BigInt(_) => BigIntType
    case Str(_) => StringType
    case Symbol => SymbolType
    case Object => ObjectType
    case Function => FunctionType
  }

  /** JavaScript truthiness: false, 0, -0, NaN, 0n, "", null and undefined are falsy. */
  predicate Truthy(v: ValueKind)
  {
    match v
    case Undefined => false
    case Null => false
    case Boolean(b) => b
    case Number(nonZero) => nonZero
    case BigInt(nonZero) => nonZero
    case Str(text) => text != ""
    case Symbol => true
    case Object => true
    case Function => true
  }

  /**
   * The shape filter: a falsy value is dropped, then an object or a function is kept.
   * Because `null` is falsy it is dropped although `typeof null` is "object".
   */
  predicate IsGrammarValue(v: ValueKind)
    ensures IsGrammarValue(v) <==> v.Object? || v.Function?
  {
    if !Truthy(v) then false
    else if TypeOf(v) == ObjectType then true
    else if TypeOf(v) == FunctionType then true
    else false
  }

  /** The grammar registry as its keys enumerate, each with the kind of its value. */
  type Registry = seq<(string, ValueKind)>

  /** Keys of an object are unique. */
  predicate DistinctKeys(reg: Registry)
  {
    forall i, j :: 0 <= i < j < |reg| ==> reg[i].0 != reg[j].0
  }

  /** Registry keys that are helpers, not grammars. */
  const Ignored: set<string> := {"extend", "insertBefore", "DFS"}

  /** An entry passes both filters. */
  predicate Kept(entry: (string, ValueKind))
  {
    entry.0 !in Ignored && IsGrammarValue(entry.1)
  }

  /** Some entry of the registry with key `k` passes both filters. */
  ghost predicate HasGrammar(reg: Registry, k: string)
  {
    exists i :: 0 <= i < |reg| && reg[i].0 == k && Kept(reg[i])
  }

  /** The keys that pass both filters, in registry order. */
  function Candidates(reg: Registry): seq<string>
  {
    if reg == [] then []
    else (if Kept(reg[0]) then [reg[0].0] else []) + Candidates(reg[1..])
  }

  /** The comparator of the sort: lower-cased names, in ordinal order. */
  predicate NameLe(a: string, b: string)
  {
    LexLe(Lower(a), Lower(b))
  }

  predicate SortedByName(s: seq<string>)
  {
    forall i, j :: 0 <= i < j < |s| ==> NameLe(s[i], s[j])
  }

  /** The members of `s` whose lower-cased name is `key`, in order. */
  function WithLowerName(s: seq<string>, key: string): seq<string>
  {
    if s == [] then []
    else (if Lower(s[0]) == key then [s[0]] else []) + WithLowerName(s[1..], key)
  }

  /** Puts `x` before the first element that does not sort below it. */
  function InsertByName(x: string, s: seq<string>): seq<string>
  {
    if s == [] then [x]
    else if NameLe(x, s[0]) then [x] + s
    else [s[0]] + InsertByName(x, s[1..])
  }

  /** A stable sort by `NameLe`, as `Array.prototype.sort` is. */
  function SortByName(s: seq<string>): seq<string>
  {
    if s == [] then [] else InsertByName(s[0], SortByName(s[1..]))
  }

  /** What `_getAvailableLanguages` computes on its first call. */
  function AvailableLanguages(reg: Registry): seq<string>
  {
    SortByName(Candidates(reg))
  }

  // ---------------------------------------------------------------- the sort

  lemma {:induction false} InsertPermutes(x: string, s: seq<string>)
    ensures multiset(InsertByName(x, s)) == multiset(s) + multiset{x}
  {
    if s != [] && !NameLe(x, s[0]) {
      InsertPermutes(x, s[1..]);
      assert s == [s[0]] + s[1..];
    }
  }

  lemma SortedCons(h: string, t: seq<string>)
    requires SortedByName(t)
    requires forall y :: y in t ==> NameLe(h, y)
    ensures SortedByName([h] + t)
  {
    var s := [h] + t;
    forall i, j | 0 <= i < j < |s| ensures NameLe(s[i], s[j]) {
      if i == 0 {
        assert s[j] == t[j - 1] && s[j] in t;
      } else {
        assert s[i] == t[i - 1] && s[j] == t[j - 1];
      }
    }
  }

  lemma {:induction false} InsertSorted(x: string, s: seq<string>)
    requires SortedByName(s)
    ensures SortedByName(InsertByName(x, s))
  {
    if s == [] {
    } else if NameLe(x, s[0]) {
      forall y | y in s ensures NameLe(x, y) {
        var j :| 0 <= j < |s| && s[j] == y;
        if j > 0 {
          LexLeTransitive(Lower(x), Lower(s[0]), Lower(y));
        }
      }
      SortedCons(x, s);
    } else {
      LexLeTotal(Lower(x), Lower(s[0]));
      var t := InsertByName(x, s[1..]);
      assert SortedByName(s[1..]);
      InsertSorted(x, s[1..]);
      InsertPermutes(x, s[1..]);
      forall y | y in t ensures NameLe(s[0], y) {
        assert y in multiset(t);
        if y != x {
          assert y in multiset(s[1..]);
          var j :| 0 <= j < |s[1..]| && s[1..][j] == y;
          assert s[j + 1] == y;
        }
      }
      SortedCons(s[0], t);
    }
  }

  /** The sort puts the names in ascending lower-cased order. */
  lemma {:induction false} SortSorted(s: seq<string>)
    ensures SortedByName(SortByName(s))
  {
    if s != [] {
      SortSorted(s[1..]);
      InsertSorted(s[0], SortByName(s[1..]));
    }
  }

  /** The sort neither loses nor adds a name. */
  lemma {:induction false} SortPermutes(s: seq<string>)
    ensures multiset(SortByName(s)) == multiset(s)
  {
    if s != [] {
      SortPermutes(s[1..]);
      InsertPermutes(s[0], SortByName(s[1..]));
      assert s == [s[0]] + s[1..];
    }
  }

  lemma {:induction false} InsertStable(x: string, s: seq<string>, key: string)
    ensures WithLowerName(InsertByName(x, s), key)
         == (if Lower(x) == key then [x] else []) + WithLowerName(s, key)
  {
    if s != [] && !NameLe(x, s[0]) {
      var t := InsertByName(x, s[1..]);
      InsertStable(x, s[1..], key);
      LexLeReflexive(Lower(x));
      assert Lower(s[0]) != Lower(x);
      assert InsertByName(x, s) == [s[0]] + t;
      assert ([s[0]] + t)[1..] == t;
      var mine := if Lower(x) == key then [x] else [];
      var head := if Lower(s[0]) == key then [s[0]] else [];
      calc {
        WithLowerName([s[0]] + t, key);
        head + WithLowerName(t, key);
        head + (mine + WithLowerName(s[1..], key));
        { assert head == [] || mine == []; }
        mine + (head + WithLowerName(s[1..], key));
        mine + WithLowerName(s, key);
      }
    } else if s != [] {
      assert ([x] + s)[1..] == s;
    }
  }

  /** The sort is stable: names that lower-case alike keep their registry order. */
  lemma {:induction false} SortStable(s: seq<string>, key: string)
    ensures WithLowerName(SortByName(s), key) == WithLowerName(s, key)
  {
    if s != [] {
      SortStable(s[1..], key);
      InsertStable(s[0], SortByName(s[1..]), key);
    }
  }

  lemma {:induction false} InsertDistinct(x: string, s: seq<string>)
    requires Distinct(s) && x !in s
    ensures Distinct(InsertByName(x, s))
  {
    if s == [] {
    } else if NameLe(x, s[0]) {
      DistinctCons(x, s);
    } else {
      assert Distinct(s[1..]);
      InsertDistinct(x, s[1..]);
      InsertPermutes(x, s[1..]);
      assert s[0] !in s[1..];
      assert s[0] !in multiset(InsertByName(x, s[1..]));
      DistinctCons(s[0], InsertByName(x, s[1..]));
    }
  }

  lemma {:induction false} SortDistinct(s: seq<string>)
    requires Distinct(s)
    ensures Distinct(SortByName(s))
  {
    if s != [] {
      assert Distinct(s[1..]);
      SortDistinct(s[1..]);
      SortPermutes(s[1..]);
      assert s[0] !in s[1..];
      assert s[0] !in multiset(SortByName(s[1..]));
      InsertDistinct(s[0], SortByName(s[1..]));
    }
  }

  // ---------------------------------------------------------------- the filters

  /** A key survives the filters exactly when some registry entry with that key passes both. */
  lemma {:induction false} CandidatesMembers(reg: Registry, k: string)
    ensures k in Candidates(reg) <==> HasGrammar(reg, k)
  {
    if reg != [] {
      CandidatesMembers(reg[1..], k);
      if HasGrammar(reg[1..], k) {
        var i :| 0 <= i < |reg[1..]| && reg[1..][i].0 == k && Kept(reg[1..][i]);
        assert reg[i + 1] == reg[1..][i];
      }
      if HasGrammar(reg, k) && !(reg[0].0 == k && Kept(reg[0])) {
        var i :| 0 <= i < |reg| && reg[i].0 == k && Kept(reg[i]);
        assert i > 0 && reg[1..][i - 1] == reg[i];
      }
    }
  }

  lemma {:induction false} CandidatesDistinct(reg: Registry)
    requires DistinctKeys(reg)
    ensures Distinct(Candidates(reg))
  {
    if reg != [] {
      assert DistinctKeys(reg[1..]);
      CandidatesDistinct(reg[1..]);
      if Kept(reg[0]) {
        CandidatesMembers(reg[1..], reg[0].0);
        forall i | 0 <= i < |reg[1..]| ensures reg[1..][i].0 != reg[0].0 {
          assert reg[1..][i] == reg[i + 1];
        }
        DistinctCons(reg[0].0, Candidates(reg[1..]));
      }
    }
  }

  // ---------------------------------------------------------------- the catalog

  /** The catalog is sorted ascending by lower-cased name, and stable among names that lower-case alike. */
  lemma CatalogSorted(reg: Registry, key: string)
    ensures SortedByName(AvailableLanguages(reg))
    ensures WithLowerName(AvailableLanguages(reg), key) == WithLowerName(Candidates(reg), key)
  {
    SortSorted(Candidates(reg));
    SortStable(Candidates(reg), key);
  }

  /** A name is in the catalog exactly when a registry entry with that key passes both filters. */
  lemma CatalogMembers(reg: Registry, k: string)
    ensures k in AvailableLanguages(reg) <==> HasGrammar(reg, k)
  {
    SortPermutes(Candidates(reg));
    CandidatesMembers(reg, k);
    assert k in AvailableLanguages(reg) <==> k in multiset(AvailableLanguages(reg));
    assert k in Candidates(reg) <==> k in multiset(Candidates(reg));
  }

  /** None of the helper keys, and no key whose value is not a grammar, reaches the catalog. */
  lemma CatalogExcludes(reg: Registry, k: string)
    ensures k in Ignored ==> k !in AvailableLanguages(reg)
    ensures DistinctKeys(reg) && (exists i :: 0 <= i < |reg| && reg[i].0 == k && !IsGrammarValue(reg[i].1))
            ==> k !in AvailableLanguages(reg)
  {
    CatalogMembers(reg, k);
    if DistinctKeys(reg) && (exists i :: 0 <= i < |reg| && reg[i].0 == k && !IsGrammarValue(reg[i].1)) {
      var i :| 0 <= i < |reg| && reg[i].0 == k && !IsGrammarValue(reg[i].1);
      forall j | 0 <= j < |reg| && reg[j].0 == k ensures !Kept(reg[j]) {
        assert j == i;
      }
    }
  }

  /** Every other key appears exactly once. */
  lemma CatalogListsEachGrammarOnce(reg: Registry, i: int)
    requires DistinctKeys(reg)
    requires 0 <= i < |reg| && Kept(reg[i])
    ensures multiset(AvailableLanguages(reg))[reg[i].0] == 1
  {
    CatalogMembers(reg, reg[i].0);
    CandidatesDistinct(reg);
    SortDistinct(Candidates(reg));
    DistinctCount(AvailableLanguages(reg), reg[i].0);
  }

  /** Distinct registry keys give a catalog without repetitions. */
  lemma CatalogDistinct(reg: Registry)
    requires DistinctKeys(reg)
    ensures Distinct(AvailableLanguages(reg))
  {
    CandidatesDistinct(reg);
    SortDistinct(Candidates(reg));
  }

}
