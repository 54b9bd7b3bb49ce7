/** Matrix expansion: the Cartesian product of the variables' values, capped. */
module Matrix {
  import opened Arithmetic

  datatype Variable = Variable(name: string, values: seq<string>)

  datatype Strategy = NoMatrix | Variables(vars: seq<Variable>)

  type Combo = map<string, string>

  const MAX_MATRIX_COMBINATIONS: nat := 256

  function Row(combo: Combo, v: Variable): (r: seq<Combo>)
    ensures |r| == |v.values|
  {
    seq(|v.values|, i requires 0 <= i < |v.values| => combo[v.name := v.values[i]])
  }

  function Extend(combos: seq<Combo>, v: Variable): seq<Combo> {
    if combos == [] then [] else Extend(combos[..|combos| - 1], v) + Row(combos[|combos| - 1], v)
  }

  function Product(vars: seq<Variable>): seq<Combo> {
    if vars == [] then [map[]] else Extend(Product(vars[..|vars| - 1]), vars[|vars| - 1])
  }

  /** One value for each variable and nothing else. */
  ghost predicate Assigns(m: Combo, vars: seq<Variable>) {
    && m.Keys == (set v <- vars :: v.name)
    && forall v <- vars :: v.name in m && m[v.name] in v.values
  }

  ghost predicate DistinctNames(vars: seq<Variable>) {
    forall i, j :: 0 <= i < j < |vars| ==> vars[i].name != vars[j].name
  }

  lemma RowMeans(c: Combo, v: Variable, m: Combo)
    ensures m in Row(c, v) <==> v.name in m && m[v.name] in v.values && m == c[v.name := m[v.name]]
  {
    if v.name in m && m[v.name] in v.values && m == c[v.name := m[v.name]] {
      var i :| 0 <= i < |v.values| && v.values[i] == m[v.name];
      assert Row(c, v)[i] == m;
    }
  }

  lemma {:induction false} ExtendMeans(combos: seq<Combo>, v: Variable, m: Combo)
    ensures m in Extend(combos, v) <==> exists c :: c in combos && m in Row(c, v)
    decreases |combos|
  {
    hide Row;
    if combos != [] {
      var front, last := combos[..|combos| - 1], combos[|combos| - 1];
      ExtendMeans(front, v, m);
      assert combos == front + [last];
    }
  }

  lemma AssignsOneMore(front: seq<Variable>, v: Variable, c: Combo, m: Combo)
    requires DistinctNames(front + [v]) && Assigns(c, front)
    requires v.name in m && m[v.name] in v.values && m == c[v.name := m[v.name]]
    ensures Assigns(m, front + [v])
  {
    var vars := front + [v];
    forall u <- vars
      ensures u.name in m && m[u.name] in u.values
    {
      var i :| 0 <= i < |vars| && vars[i] == u;
      if i < |front| {
        assert u in front && vars[|front|] == v && u.name != v.name;
      }
    }
    assert (set u <- vars :: u.name) == (set u <- front :: u.name) + {v.name};
  }

  lemma AssignsOneLess(front: seq<Variable>, v: Variable, m: Combo)
    requires DistinctNames(front + [v]) && Assigns(m, front + [v])
    ensures v.name in m && m[v.name] in v.values
    ensures Assigns(m - {v.name}, front) && m == (m - {v.name})[v.name := m[v.name]]
  {
    var vars := front + [v];
    var c := m - {v.name};
    assert v in vars;
    forall u <- front
      ensures u.name in c && c[u.name] in u.values
    {
      assert u in vars;
      var i :| 0 <= i < |front| && front[i] == u;
      assert vars[i] == u && vars[|front|] == v;
    }
    assert (set u <- vars :: u.name) == (set u <- front :: u.name) + {v.name};
  }

  /** The product is every assignment of a listed value to every variable. */
  lemma {:induction false} ProductMeans(vars: seq<Variable>, m: Combo)
    requires DistinctNames(vars)
    ensures m in Product(vars) <==> Assigns(m, vars)
    decreases |vars|
  {
    hide Extend, Row;
    if vars == [] {
      NoVariables(m);
    } else {
      var front, v := vars[..|vars| - 1], vars[|vars| - 1];
      assert vars == front + [v];
      ExtendMeans(Product(front), v, m);
      hide Assigns;
      if m in Product(vars) {
        var c :| c in Product(front) && m in Row(c, v);
        RowMeans(c, v, m);
        ProductMeans(front, c);
        AssignsOneMore(front, v, c, m);
      }
      if Assigns(m, vars) {
        AssignsOneLess(front, v, m);
        ProductMeans(front, m - {v.name});
        RowMeans(m - {v.name}, v, m);
      }
    }
  }

  lemma NoVariables(m: Combo)
    ensures m in Product([]) <==> Assigns(m, [])
  {
  }

  lemma {:induction false} ExtendSize(combos: seq<Combo>, v: Variable)
    ensures |Extend(combos, v)| == |combos| * |v.values|
    decreases |combos|
  {
    if combos != [] {
      ExtendSize(combos[..|combos| - 1], v);
      assert |combos| * |v.values| == (|combos| - 1) * |v.values| + |v.values|;
    }
  }

  /** In which order: the value of the new variable changes fastest. */
  lemma {:induction false} ExtendAt(combos: seq<Combo>, v: Variable, i: nat)
    requires i < |Extend(combos, v)|
    ensures v.values != [] && i / |v.values| < |combos|
    ensures Extend(combos, v)[i] == combos[i / |v.values|][v.name := v.values[i % |v.values|]]
    decreases |combos|
  {
    var front, last := combos[..|combos| - 1], combos[|combos| - 1];
    ExtendSize(front, v);
    assert Extend(combos, v) == Extend(front, v) + Row(last, v);
    hide Extend;
    if i < |Extend(front, v)| {
      ExtendAt(front, v, i);
    } else {
      LastRow(i, |front|, |v.values|);
    }
  }

  /** Item `i` of rows of `n` items stands in the last row. */
  lemma LastRow(i: nat, last: nat, n: nat)
    requires last * n <= i < last * n + n
    ensures i / n == last && i % n == i - last * n
  {
    UniqueQuotient(i, n, last, i - last * n);
  }

  /** The number of combinations of the variables behind variable `j`. */
  ghost function Later(vars: seq<Variable>, j: nat): nat
    requires j < |vars|
    decreases |vars|
  {
    if j == |vars| - 1 then 1 else Later(vars[..|vars| - 1], j) * |vars[|vars| - 1].values|
  }

  /** Combination `i` is the number `i` with one digit for each variable, the last one lowest. */
  lemma {:induction false} ProductAt(vars: seq<Variable>, i: nat, j: nat)
    requires DistinctNames(vars) && i < |Product(vars)| && j < |vars|
    ensures Later(vars, j) > 0 && vars[j].values != [] && vars[j].name in Product(vars)[i]
    ensures Product(vars)[i][vars[j].name] == vars[j].values[i / Later(vars, j) % |vars[j].values|]
    decreases |vars|
  {
    hide Extend;
    var front, v := vars[..|vars| - 1], vars[|vars| - 1];
    var n := |v.values|;
    ExtendSize(Product(front), v);
    ExtendAt(Product(front), v, i);
    if j < |vars| - 1 {
      ProductAt(front, i / n, j);
      DivideTwice(i, n, Later(front, j));
    }
  }

  /** No prefix of the variables exceeds the limit. */
  ghost predicate Fits(vars: seq<Variable>, n: nat)
    requires n <= |vars|
  {
    forall k :: 0 <= k <= n ==> |Product(vars[..k])| <= 256
  }

  /** What is returned: the whole product, or the first 256 combinations over the variables up to
      the first one that exceeds the limit; the variables after it are then missing. */
  ghost predicate Expanded(vars: seq<Variable>, r: seq<Combo>) {
    if Fits(vars, |vars|) then r == Product(vars)
    else exists k :: 0 < k <= |vars| && Fits(vars, k - 1) && |Product(vars[..k])| > 256
                     && r == Product(vars[..k])[..256]
  }

  /** `expand_matrix`. */
  method ExpandMatrix(strategy: Strategy) returns (combos: seq<Combo>)
    ensures |combos| <= 256
    ensures strategy.NoMatrix? ==> combos == [map[]]
    ensures strategy.Variables? ==> Expanded(strategy.vars, combos)
  {
    if strategy.NoMatrix? { return [map[]]; }
    var vars := strategy.vars;
    combos := [map[]];
    NothingYet(vars);
    for k := 0 to |vars|
      invariant combos == Product(vars[..k]) && Fits(vars, k) && |combos| <= MAX_MATRIX_COMBINATIONS
    {
      var next, whole := ExtendCapped(combos, vars[k]);
      assert vars[..k + 1][..k] == vars[..k];
      if !whole {
        return next;
      }
      combos := next;
    }
    assert vars[..|vars|] == vars;
  }

  lemma NothingYet(vars: seq<Variable>)
    ensures Fits(vars, 0) && Product(vars[..0]) == [map[]]
  {
    assert vars[..0] == [];
  }

  /** The two inner loops for one variable, cut short at the limit. */
  method ExtendCapped(combos: seq<Combo>, v: Variable) returns (next: seq<Combo>, whole: bool)
    ensures whole <==> |Extend(combos, v)| <= MAX_MATRIX_COMBINATIONS
    ensures whole ==> next == Extend(combos, v)
    ensures !whole ==> next == Extend(combos, v)[..MAX_MATRIX_COMBINATIONS]
  {
    next := [];
    for c := 0 to |combos|
      invariant next == Extend(combos[..c], v) && |next| <= MAX_MATRIX_COMBINATIONS
    {
      ghost var before := next;
      for i := 0 to |v.values|
        invariant next == before + Row(combos[c], v)[..i] && |next| <= MAX_MATRIX_COMBINATIONS
      {
        next := next + [combos[c][v.name := v.values[i]]];
        if |next| > MAX_MATRIX_COMBINATIONS {
          assert combos[..c + 1][..c] == combos[..c];
          assert next == (before + Row(combos[c], v))[..|next|];
          ExtendPrefix(combos, v, c + 1);
          next := next[..MAX_MATRIX_COMBINATIONS];
          return next, false;
        }
      }
      assert combos[..c + 1][..c] == combos[..c];
    }
    assert combos[..|combos|] == combos;
    whole := true;
  }

  lemma {:induction false} ExtendPrefix(combos: seq<Combo>, v: Variable, c: nat)
    requires c <= |combos|
    ensures Extend(combos[..c], v) <= Extend(combos, v)
    decreases |combos|
  {
    if c < |combos| {
      var front := combos[..|combos| - 1];
      assert front[..c] == combos[..c];
      ExtendPrefix(front, v, c);
    } else {
      assert combos[..c] == combos;
    }
  }
}
