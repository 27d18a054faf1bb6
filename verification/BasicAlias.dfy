/**
 lib/Analysis/BasicAliasAnalysis.cpp: addresses computed by getelementptr (GEP) as a base, a constant and
 scaled variables, and what the difference of two such addresses says about two accesses.  Pointers and
 indices have 64 bits.
 */
module BasicAlias {
  import opened Arithmetic
  import opened Wrappers

  // ---------------------------------------------------------------- index expressions

  /** An integer value, with what makes it another value; only arithmetic with constants is looked through. */
  datatype Expr =
    | Atom(id: nat)
    | Add(id: nat, left: Expr, c: uint64)
    | Or(id: nat, left: Expr, c: uint64)
    | Mul(id: nat, left: Expr, c: uint64)
    | Shl(id: nat, left: Expr, k: nat)

  /** The values of atoms and the addresses of objects. */
  datatype Env = Env(value: nat -> uint64, address: nat -> uint64)

  /** Arithmetic modulo 2^64. */
  function Eval(e: Expr, env: Env): uint64 {
    match e
    case Atom(id) => env.value(id)
    case Add(_, l, c) => Wrap(Eval(l, env) + c)
    case Or(_, l, c) => Wrap(BitOr(Eval(l, env), c))
    case Mul(_, l, c) => Wrap(Eval(l, env) * c)
    case Shl(_, l, k) => Wrap(Eval(l, env) * Pow2(k))
  }

  /** What MaskedValueIsZero knows: `zero(e, c)` only if no bit of `c` is ever set in `e`. */
  type KnownBits = (Expr, uint64) -> bool

  ghost predicate Sound(zero: KnownBits) {
    forall e, c: uint64, env {:trigger zero(e, c), Eval(e, env)} :: zero(e, c) ==> BitAnd(Eval(e, env), c) == 0
  }

  /** scale * value + offset */
  datatype Linear = Linear(value: Expr, scale: uint64, offset: uint64)

  const MAXDEPTH := 6

  /** An index as a linear expression of one value (BasicAliasAnalysis.cpp:206-272), looking through at most six operations. */
  function GetLinearExpression(e: Expr, zero: KnownBits, depth: nat): Linear {
    if depth >= MAXDEPTH then Linear(e, 1, 0)
    else
      match e
      case Atom(_) => Linear(e, 1, 0)
      case Add(_, l, c) => var r := GetLinearExpression(l, zero, depth + 1); r.(offset := Wrap(r.offset + c))
      case Or(_, l, c) =>
        if zero(l, c)
        then var r := GetLinearExpression(l, zero, depth + 1); r.(offset := Wrap(r.offset + c))
        else Linear(e, 1, 0)
      case Mul(_, l, c) =>
        var r := GetLinearExpression(l, zero, depth + 1);
        Linear(r.value, Wrap(r.scale * c), Wrap(r.offset * c))
      case Shl(_, l, k) =>
        var r := GetLinearExpression(l, zero, depth + 1);
        Linear(r.value, Wrap(r.scale * Pow2(k)), Wrap(r.offset * Pow2(k)))
  }

  /** Operations of which only the operand matters: additions, multiplications, shifts, and what `or` adds to clear bits. */
  ghost predicate LookedThrough(e: Expr, zero: KnownBits) {
    e.Add? || e.Mul? || e.Shl? || (e.Or? && zero(e.left, e.c))
  }

  /** `v` is what is left of `e` when `n` such operations are taken off. */
  ghost predicate Stripped(e: Expr, v: Expr, n: nat, zero: KnownBits) {
    if n == 0 then v == e else LookedThrough(e, zero) && Stripped(e.left, v, n - 1, zero)
  }

  /** All operations that can be looked through are, up to six of them. */
  lemma {:induction false} LinearStops(e: Expr, zero: KnownBits, depth: nat) returns (n: nat)
    requires depth <= 6
    ensures var v := GetLinearExpression(e, zero, depth).value;
      Stripped(e, v, n, zero) && n <= 6 - depth && (n < 6 - depth ==> !LookedThrough(v, zero))
  {
    n := 0;
    if depth < 6 && LookedThrough(e, zero) {
      n := LinearStops(e.left, zero, depth + 1);
      n := n + 1;
    }
  }

  /** At most `n` such operations on an atom. */
  ghost predicate OverAtom(e: Expr, n: nat, zero: KnownBits) {
    e.Atom? || (n > 0 && LookedThrough(e, zero) && OverAtom(e.left, n - 1, zero))
  }

  /** Of at most six operations on an atom nothing but the atom is left. */
  lemma {:induction false} AtomFound(e: Expr, zero: KnownBits, depth: nat)
    requires depth <= 6 && OverAtom(e, 6 - depth, zero)
    ensures GetLinearExpression(e, zero, depth).value.Atom?
  {
    if !e.Atom? {
      AtomFound(e.left, zero, depth + 1);
    }
  }

  function LinearValue(l: Linear, env: Env): uint64 {
    Wrap(l.scale * Eval(l.value, env) + l.offset)
  }

  lemma LinearPlus(s: int, v: int, o: int, c: int)
    ensures Wrap(s * v + Wrap(o + c)) == Wrap(Wrap(s * v + o) + c)
  {
    hide Wrap;
    WrapSum(s * v, o + c);
    WrapSum(s * v + o, c);
  }

  lemma Distribute(s: int, v: int, o: int, c: int)
    ensures (s * v + o) * c == s * c * v + o * c
  {
    MulSum(s * v, o, c);
    MulAssoc(s, c, v);
    MulAssoc(s, v, c);
  }

  lemma LinearTimes(s: int, v: int, o: int, c: int)
    ensures Wrap(Wrap(s * c) * v + Wrap(o * c)) == Wrap(Wrap(s * v + o) * c)
  {
    hide Wrap;
    var a, b := s * c, o * c;
    WrapSum(Wrap(a) * v, b);
    WrapProduct(a, v);
    WrapSum(a * v, b);
    WrapProduct(s * v + o, c);
    Distribute(s, v, o, c);
  }

  lemma AddedValue(r: Linear, c: int, env: Env)
    ensures LinearValue(r.(offset := Wrap(r.offset + c)), env) == Wrap(LinearValue(r, env) + c)
  {
    hide Wrap;
    LinearPlus(r.scale, Eval(r.value, env), r.offset, c);
  }

  lemma ScaledValue(r: Linear, c: int, env: Env)
    ensures LinearValue(Linear(r.value, Wrap(r.scale * c), Wrap(r.offset * c)), env) == Wrap(LinearValue(r, env) * c)
  {
    hide Wrap;
    LinearTimes(r.scale, Eval(r.value, env), r.offset, c);
  }

  /** The linear expression has the value of the index, whatever the values of the atoms. */
  lemma {:induction false} LinearExact(e: Expr, zero: KnownBits, depth: nat, env: Env)
    requires Sound(zero)
    ensures LinearValue(GetLinearExpression(e, zero, depth), env) == Eval(e, env)
  {
    hide Wrap, Sound, BitOr, Pow2, LinearValue;
    if depth >= MAXDEPTH || e.Atom? {
      JustValue(e, env);
    } else {
      var r := GetLinearExpression(e.left, zero, depth + 1);
      LinearExact(e.left, zero, depth + 1, env);
      match e
      case Add(_, l, c) => AddedValue(r, c, env);
      case Or(_, l, c) =>
        if zero(l, c) {
          OrIsPlus(l, c, zero, env);
          AddedValue(r, c, env);
        } else {
          JustValue(e, env);
        }
      case Mul(_, l, c) => ScaledValue(r, c, env);
      case Shl(_, l, k) => ScaledValue(r, Pow2(k), env);
    }
  }

  lemma JustValue(e: Expr, env: Env)
    ensures LinearValue(Linear(e, 1, 0), env) == Eval(e, env)
  {
  }

  lemma OrIsPlus(l: Expr, c: uint64, zero: KnownBits, env: Env)
    requires Sound(zero) && zero(l, c)
    ensures BitOr(Eval(l, env), c) == Eval(l, env) + c
  {
    OrAdds(Eval(l, env), c);
  }

  // ---------------------------------------------------------------- pointers

  /** The index into a struct, as the offset of the field, or into an array, with the size of the elements. */
  datatype Index = Field(offset: uint64) | Const(size: uint64, c: uint64) | Variable(size: uint64, e: Expr)

  /** A pointer: an object or anything that is not looked through, a cast, an alias that is not overridden, or a GEP. */
  datatype Ptr = Object(id: nat) | BitCast(p: Ptr) | GlobalAlias(p: Ptr) | Gep(p: Ptr, indices: seq<Index>)

  function IndexBytes(i: Index, env: Env): uint64 {
    match i
    case Field(offset) => offset
    case Const(size, c) => Wrap(size * c)
    case Variable(size, e) => Wrap(size * Eval(e, env))
  }

  function Bytes(indices: seq<Index>, env: Env): uint64 {
    if indices == [] then 0 else Wrap(Bytes(indices[..|indices| - 1], env) + IndexBytes(indices[|indices| - 1], env))
  }

  function Address(p: Ptr, env: Env): uint64 {
    match p
    case Object(id) => env.address(id)
    case BitCast(q) => Address(q, env)
    case GlobalAlias(q) => Address(q, env)
    case Gep(q, indices) => Wrap(Address(q, env) + Bytes(indices, env))
  }

  /** Every variable index is an atom with at most six operations on it that can be looked through. */
  ghost predicate SimpleIndices(indices: seq<Index>, zero: KnownBits) {
    forall i :: 0 <= i < |indices| && indices[i].Variable? ==> OverAtom(indices[i].e, 6, zero)
  }

  ghost predicate Simple(p: Ptr, zero: KnownBits) {
    p.Object? || ((p.Gep? ==> SimpleIndices(p.indices, zero)) && Simple(p.p, zero))
  }

  /** The object a pointer is based on. */
  function Underlying(p: Ptr): Ptr {
    if p.Object? then p else Underlying(p.p)
  }

  /** How many casts, aliases and GEPs there are on the way to the object. */
  function Steps(p: Ptr): nat {
    if p.Object? then 0 else 1 + Steps(p.p)
  }

  /** A variable index times a scale. */
  datatype Scaled = Scaled(value: Expr, scale: uint64)

  function ScaledSum(vars: seq<Scaled>, env: Env): int {
    if vars == [] then 0
    else ScaledSum(vars[..|vars| - 1], env) + vars[|vars| - 1].scale * Eval(vars[|vars| - 1].value, env)
  }

  lemma {:induction false} ScaledBoth(a: seq<Scaled>, b: seq<Scaled>, env: Env)
    ensures ScaledSum(a + b, env) == ScaledSum(a, env) + ScaledSum(b, env)
  {
    if b == [] {
      assert a + b == a;
    } else {
      assert (a + b)[..|a + b| - 1] == a + b[..|b| - 1];
      ScaledBoth(a, b[..|b| - 1], env);
    }
  }

  lemma ScaledOne(v: Scaled, env: Env)
    ensures ScaledSum([v], env) == v.scale * Eval(v.value, env)
  {
    assert [v][..0] == [];
  }

  lemma ScaledWithout(vars: seq<Scaled>, j: nat, env: Env)
    requires j < |vars|
    ensures ScaledSum(vars, env) == ScaledSum(vars[..j] + vars[j + 1..], env) + vars[j].scale * Eval(vars[j].value, env)
  {
    assert vars == vars[..j] + [vars[j]] + vars[j + 1..];
    ScaledBoth(vars[..j] + [vars[j]], vars[j + 1..], env);
    ScaledBoth(vars[..j], [vars[j]], env);
    ScaledBoth(vars[..j], vars[j + 1..], env);
    ScaledOne(vars[j], env);
  }

  /** Every scale is nonzero and no value occurs twice. */
  ghost predicate Proper(vars: seq<Scaled>) {
    && (forall i :: 0 <= i < |vars| ==> vars[i].scale != 0)
    && (forall i, j :: 0 <= i < j < |vars| ==> vars[i].value != vars[j].value)
  }

  ghost predicate AllAtoms(vars: seq<Scaled>) {
    forall i :: 0 <= i < |vars| ==> vars[i].value.Atom?
  }

  /** The variables `vars` and scale * v come to the variables `vars0` and scale0 * v. */
  ghost predicate Amounts(vars: seq<Scaled>, scale: int, vars0: seq<Scaled>, scale0: int, v: Expr) {
    forall env :: Wrap(ScaledSum(vars, env) + scale * Eval(v, env)) == Wrap(ScaledSum(vars0, env) + scale0 * Eval(v, env))
  }

  lemma EntryMerged(vars: seq<Scaled>, i: nat, v: Expr, scale: uint64)
    requires i < |vars| && vars[i].value == v
    ensures Amounts(vars[..i] + vars[i + 1..], Wrap(scale + vars[i].scale), vars, scale, v)
  {
    hide Wrap;
    var rest := vars[..i] + vars[i + 1..];
    forall env ensures Wrap(ScaledSum(rest, env) + Wrap(scale + vars[i].scale) * Eval(v, env)) == Wrap(ScaledSum(vars, env) + scale * Eval(v, env)) {
      ScaledWithout(vars, i, env);
      MergedScale(ScaledSum(rest, env), scale, vars[i].scale, Eval(v, env));
    }
  }

  lemma EntryAdded(vars: seq<Scaled>, v: Expr, scale: uint64)
    ensures Amounts(vars + [Scaled(v, scale)], 0, vars, scale, v)
  {
    hide Wrap;
    forall env ensures ScaledSum(vars + [Scaled(v, scale)], env) == ScaledSum(vars, env) + scale * Eval(v, env) {
      ScaledBoth(vars, [Scaled(v, scale)], env);
      ScaledOne(Scaled(v, scale), env);
    }
  }

  lemma AmountsTwice(a: seq<Scaled>, sa: int, b: seq<Scaled>, sb: int, c: seq<Scaled>, sc: int, v: Expr)
    requires Amounts(a, sa, b, sb, v) && Amounts(b, sb, c, sc, v)
    ensures Amounts(a, sa, c, sc, v)
  {
    hide Wrap;
  }

  /** Adds scale * value to the variable indices (BasicAliasAnalysis.cpp:388-412). */
  method AddVariable(vars0: seq<Scaled>, v: Expr, scale0: uint64) returns (vars: seq<Scaled>)
    ensures Amounts(vars, 0, vars0, scale0, v)
    ensures Proper(vars0) ==> Proper(vars)
    ensures AllAtoms(vars0) && v.Atom? ==> AllAtoms(vars)
  {
    hide Amounts, Wrap;
    vars := vars0;
    var scale := scale0;
    AmountsSame(vars, scale, v);
    var i := 0;
    while i < |vars|
      invariant 0 <= i <= |vars| && vars == vars0 && scale == scale0
      invariant forall k :: 0 <= k < i ==> vars[k].value != v
    {
      if vars[i].value == v {
        EntryMerged(vars, i, v, scale);
        scale := Wrap(scale + vars[i].scale);
        vars := vars[..i] + vars[i + 1..];
        break;
      }
      i := i + 1;
    }
    if scale != 0 {
      EntryAdded(vars, v, scale);
      AmountsTwice(vars + [Scaled(v, scale)], 0, vars, scale, vars0, scale0, v);
      vars := vars + [Scaled(v, scale)];
    }
  }

  lemma AmountsSame(vars: seq<Scaled>, scale: int, v: Expr)
    ensures Amounts(vars, scale, vars, scale, v)
  {
  }

  lemma MergedScale(sum: int, a: int, b: int, x: int)
    ensures Wrap(sum + Wrap(a + b) * x) == Wrap(sum + b * x + a * x)
  {
    hide Wrap;
    WrapProduct(a + b, x);
    WrapSum(sum, Wrap(a + b) * x);
    WrapSum(sum, (a + b) * x);
    MulSum(a, b, x);
  }

  // ---------------------------------------------------------------- decomposition

  /** A base pointer, a constant offset and variable indices. */
  datatype Decomposed = Decomposed(base: Ptr, offset: uint64, vars: seq<Scaled>, maxLookupReached: bool)

  ghost predicate AddressIs(p: Ptr, base: Ptr, offset: int, vars: seq<Scaled>) {
    forall env :: Address(p, env) == Wrap(Address(base, env) + offset + ScaledSum(vars, env))
  }

  /** The offsets of the first `i` indices have been added. */
  ghost predicate IndicesAdded(indices: seq<Index>, i: nat, offset: int, vars: seq<Scaled>, offset0: int, vars0: seq<Scaled>) {
    i <= |indices| && forall env ::
      Wrap(offset + ScaledSum(vars, env)) == Wrap(offset0 + ScaledSum(vars0, env) + Bytes(indices[..i], env))
  }

  lemma NextBytes(indices: seq<Index>, i: nat, env: Env)
    requires i < |indices|
    ensures Bytes(indices[..i + 1], env) == Wrap(Bytes(indices[..i], env) + IndexBytes(indices[i], env))
  {
    assert indices[..i + 1][..i] == indices[..i];
  }

  lemma ConstantAdded(indices: seq<Index>, i: nat, offset: int, vars: seq<Scaled>, offset0: int, vars0: seq<Scaled>, c: int)
    requires IndicesAdded(indices, i, offset, vars, offset0, vars0) && i < |indices|
    requires forall env :: IndexBytes(indices[i], env) == Wrap(c)
    ensures IndicesAdded(indices, i + 1, Wrap(offset + c), vars, offset0, vars0)
  {
    hide Wrap;
    forall env ensures Wrap(Wrap(offset + c) + ScaledSum(vars, env)) == Wrap(offset0 + ScaledSum(vars0, env) + Bytes(indices[..i + 1], env)) {
      NextBytes(indices, i, env);
      var x, b, s := offset0 + ScaledSum(vars0, env), Bytes(indices[..i], env), ScaledSum(vars, env);
      WrapSum(b, c);
      WrapSum(x, b + c);
      WrapSum(x + b, c);
      WrapSum(offset + c, s);
      WrapSum(offset + s, c);
    }
  }

  /** An index variable C1*V+C2 with elements of `size` bytes contributes (C1*size)*V and C2*size. */
  lemma VariableBytes(size: int, l: Linear, x: int, env: Env)
    requires x == Wrap(l.scale * Eval(l.value, env) + l.offset)
    ensures Wrap(size * x) == Wrap(Wrap(size * l.scale) * Eval(l.value, env) + l.offset * size)
  {
    hide Wrap;
    var v := Eval(l.value, env);
    WrapProduct(l.scale * v + l.offset, size);
    WrapProduct(size * l.scale, v);
    WrapSum(Wrap(size * l.scale) * v, l.offset * size);
    WrapSum(size * l.scale * v, l.offset * size);
    MulSum(l.scale * v, l.offset, size);
    MulAssoc(size, l.scale, v);
  }

  lemma VariableAdded(indices: seq<Index>, i: nat, offset: int, vars: seq<Scaled>, offset0: int, vars0: seq<Scaled>,
                      zero: KnownBits, vars': seq<Scaled>)
    requires Sound(zero) && IndicesAdded(indices, i, offset, vars, offset0, vars0) && i < |indices| && indices[i].Variable?
    requires var l := GetLinearExpression(indices[i].e, zero, 0); Amounts(vars', 0, vars, Wrap(indices[i].size * l.scale), l.value)
    ensures var l := GetLinearExpression(indices[i].e, zero, 0);
      IndicesAdded(indices, i + 1, Wrap(offset + l.offset * indices[i].size), vars', offset0, vars0)
  {
    hide Wrap, Sound;
    var size, l := indices[i].size, GetLinearExpression(indices[i].e, zero, 0);
    var c := l.offset * size;
    forall env ensures Wrap(Wrap(offset + c) + ScaledSum(vars', env)) == Wrap(offset0 + ScaledSum(vars0, env) + Bytes(indices[..i + 1], env)) {
      NextBytes(indices, i, env);
      LinearExact(indices[i].e, zero, 0, env);
      VariableBytes(size, l, Eval(indices[i].e, env), env);
      var x, b, s, s' := offset0 + ScaledSum(vars0, env), Bytes(indices[..i], env), ScaledSum(vars, env), ScaledSum(vars', env);
      var t := Wrap(size * l.scale) * Eval(l.value, env);
      assert Wrap(s' + 0 * Eval(l.value, env)) == Wrap(s + t);
      SumsAgree(offset, c, s, s', t, x, b, IndexBytes(indices[i], env));
    }
  }

  lemma SumsAgree(offset: int, c: int, s: int, s': int, t: int, x: int, b: int, y: int)
    requires Wrap(offset + s) == Wrap(x + b) && Wrap(s') == Wrap(s + t) && y == Wrap(t + c)
    ensures Wrap(Wrap(offset + c) + s') == Wrap(x + Wrap(b + y))
  {
    hide Wrap;
    WrapSum(offset + c, s');
    WrapSum(offset + c, s');
    WrapSum(offset + c, s + t);
    WrapSum(offset + s, t + c);
    WrapSum(x + b, t + c);
    WrapSum(b, t + c);
    WrapSum(x, b + (t + c));
    WrapSum(x, b + y);
  }

  /** The indices of one GEP added to what has been gathered (BasicAliasAnalysis.cpp:346-413). */
  method AddIndices(indices: seq<Index>, zero: KnownBits, offset0: uint64, vars0: seq<Scaled>) returns (offset: uint64, vars: seq<Scaled>)
    requires Sound(zero)
    ensures IndicesAdded(indices, |indices|, offset, vars, offset0, vars0)
    ensures Proper(vars0) ==> Proper(vars)
    ensures AllAtoms(vars0) && SimpleIndices(indices, zero) ==> AllAtoms(vars)
  {
    hide IndicesAdded, Sound, Amounts, Proper, AllAtoms, SimpleIndices;
    offset, vars := offset0, vars0;
    NoneAdded(indices, offset, vars);
    var i := 0;
    while i < |indices|
      invariant 0 <= i <= |indices| && IndicesAdded(indices, i, offset, vars, offset0, vars0)
      invariant Proper(vars0) ==> Proper(vars)
      invariant AllAtoms(vars0) && SimpleIndices(indices, zero) ==> AllAtoms(vars)
    {
      match indices[i] {
        case Field(fieldOffset) =>
          FieldBytes(indices[i], fieldOffset);
          ConstantAdded(indices, i, offset, vars, offset0, vars0, fieldOffset);
          offset := Wrap(offset + fieldOffset);
        case Const(size, c) =>
          ConstantAdded(indices, i, offset, vars, offset0, vars0, size * c);
          offset := Wrap(offset + size * c);
        case Variable(size, e) =>
          var l := GetLinearExpression(e, zero, 0);
          SimpleAtom(indices, zero, i);
          var vars1 := AddVariable(vars, l.value, Wrap(size * l.scale));
          VariableAdded(indices, i, offset, vars, offset0, vars0, zero, vars1);
          offset, vars := Wrap(offset + l.offset * size), vars1;
      }
      i := i + 1;
    }
  }

  lemma SimpleAtom(indices: seq<Index>, zero: KnownBits, i: nat)
    requires i < |indices| && indices[i].Variable?
    ensures SimpleIndices(indices, zero) ==> GetLinearExpression(indices[i].e, zero, 0).value.Atom?
  {
    if SimpleIndices(indices, zero) {
      AtomFound(indices[i].e, zero, 0);
    }
  }

  lemma NoneAdded(indices: seq<Index>, offset: int, vars: seq<Scaled>)
    ensures IndicesAdded(indices, 0, offset, vars, offset, vars)
  {
  }

  lemma FieldBytes(i: Index, offset: uint64)
    requires i == Field(offset)
    ensures forall env :: IndexBytes(i, env) == Wrap(offset)
  {
  }

  lemma GepAddress(p: Ptr, v: Ptr, offset: int, vars: seq<Scaled>, offset': int, vars': seq<Scaled>)
    requires AddressIs(p, v, offset, vars) && v.Gep? && IndicesAdded(v.indices, |v.indices|, offset', vars', offset, vars)
    ensures AddressIs(p, v.p, offset', vars')
  {
    hide Wrap;
    assert v.indices[..|v.indices|] == v.indices;
    forall env ensures Address(p, env) == Wrap(Address(v.p, env) + offset' + ScaledSum(vars', env)) {
      PointerSums(Address(v.p, env), Bytes(v.indices, env), offset, ScaledSum(vars, env), offset', ScaledSum(vars', env));
    }
  }

  lemma PointerSums(a: int, b: int, offset: int, s: int, offset': int, s': int)
    requires Wrap(offset' + s') == Wrap(offset + s + b)
    ensures Wrap(Wrap(a + b) + offset + s) == Wrap(a + offset' + s')
  {
    hide Wrap;
    WrapSum(a + b, offset + s);
    WrapSum(a, offset + s + b);
    WrapSum(a, offset' + s');
  }

  lemma CastAddress(p: Ptr, v: Ptr, offset: int, vars: seq<Scaled>)
    requires AddressIs(p, v, offset, vars) && (v.BitCast? || v.GlobalAlias?)
    ensures AddressIs(p, v.p, offset, vars)
  {
  }

  const MAXLOOKUP := 6

  /** A pointer as a base, a constant offset and variable indices (BasicAliasAnalysis.cpp:289-422), through at most six steps. */
  method DecomposeGEPExpression(p: Ptr, zero: KnownBits) returns (d: Decomposed)
    requires Sound(zero)
    ensures AddressIs(p, d.base, d.offset, d.vars) && Proper(d.vars)
    ensures !d.maxLookupReached ==> d.base == Underlying(p)
    ensures d.maxLookupReached <==> Steps(p) >= 6
    ensures Simple(p, zero) ==> AllAtoms(d.vars)
  {
    hide AddressIs, IndicesAdded, Sound, SimpleIndices;
    var v, offset, vars, maxLookup := p, 0, [], MAXLOOKUP;
    SelfAddress(p);
    while maxLookup != 0
      invariant 0 <= maxLookup && AddressIs(p, v, offset, vars) && Proper(vars) && 0 <= offset < W
      invariant Underlying(v) == Underlying(p) && Steps(p) == Steps(v) + MAXLOOKUP - maxLookup
      invariant Simple(p, zero) ==> Simple(v, zero) && AllAtoms(vars)
      decreases maxLookup
    {
      match v {
        case Object(_) =>
          return Decomposed(v, offset, vars, false);
        case BitCast(q) =>
          CastAddress(p, v, offset, vars);
          v := q;
        case GlobalAlias(q) =>
          CastAddress(p, v, offset, vars);
          v := q;
        case Gep(q, indices) =>
          var offset1, vars1 := AddIndices(indices, zero, offset, vars);
          GepAddress(p, v, offset, vars, offset1, vars1);
          v, offset, vars := q, offset1, vars1;
      }
      maxLookup := maxLookup - 1;
    }
    d := Decomposed(v, offset, vars, true);
  }

  lemma SelfAddress(p: Ptr)
    ensures AddressIs(p, p, 0, [])
  {
  }

  // ---------------------------------------------------------------- differences

  ghost predicate NonZero(vars: seq<Scaled>) {
    forall i :: 0 <= i < |vars| ==> vars[i].scale != 0
  }

  ghost predicate DifferenceIs(diff: seq<Scaled>, dest: seq<Scaled>, src: seq<Scaled>) {
    forall env :: Wrap(ScaledSum(diff, env)) == Wrap(ScaledSum(dest, env) - ScaledSum(src, env))
  }

  /** One entry of the source taken off `before`. */
  lemma OneSubtracted(before: seq<Scaled>, after: seq<Scaled>, dest: seq<Scaled>, src: seq<Scaled>, i: nat)
    requires i < |src| && DifferenceIs(before, dest, src[..i])
    requires forall env :: Wrap(ScaledSum(after, env)) == Wrap(ScaledSum(before, env) - src[i].scale * Eval(src[i].value, env))
    ensures DifferenceIs(after, dest, src[..i + 1])
  {
    hide Wrap;
    assert src[..i + 1][..i] == src[..i];
    forall env ensures Wrap(ScaledSum(after, env)) == Wrap(ScaledSum(dest, env) - ScaledSum(src[..i + 1], env)) {
      var t := src[i].scale * Eval(src[i].value, env);
      WrapSum(ScaledSum(before, env), 0 - t);
      WrapSum(ScaledSum(dest, env) - ScaledSum(src[..i], env), 0 - t);
    }
  }

  lemma ScaleLowered(vars: seq<Scaled>, j: nat, s: uint64)
    requires j < |vars|
    ensures forall env :: Wrap(ScaledSum(vars[j := Scaled(vars[j].value, Wrap(vars[j].scale - s))], env))
                          == Wrap(ScaledSum(vars, env) - s * Eval(vars[j].value, env))
  {
    hide Wrap, ScaledSum, Eval;
    var v, lowered := vars[j].value, Wrap(vars[j].scale - s);
    var vars' := vars[j := Scaled(v, lowered)];
    assert vars'[..j] == vars[..j] && vars'[j + 1..] == vars[j + 1..];
    forall env ensures Wrap(ScaledSum(vars', env)) == Wrap(ScaledSum(vars, env) - s * Eval(v, env)) {
      ScaledWithout(vars, j, env);
      ScaledWithout(vars', j, env);
      Lowered(ScaledSum(vars[..j] + vars[j + 1..], env), Eval(v, env), vars[j].scale, s);
    }
  }

  lemma Lowered(rest: int, x: int, c: int, s: int)
    ensures Wrap(rest + Wrap(c - s) * x) == Wrap(rest + c * x - s * x)
  {
    hide Wrap;
    WrapProduct(c - s, x);
    WrapSum(rest, Wrap(c - s) * x);
    WrapSum(rest, (c - s) * x);
    MulSum(c, s, x);
  }

  lemma EntryErased(vars: seq<Scaled>, j: nat)
    requires j < |vars|
    ensures forall env :: ScaledSum(vars[..j] + vars[j + 1..], env) == ScaledSum(vars, env) - vars[j].scale * Eval(vars[j].value, env)
  {
    forall env ensures ScaledSum(vars[..j] + vars[j + 1..], env) == ScaledSum(vars, env) - vars[j].scale * Eval(vars[j].value, env) {
      ScaledWithout(vars, j, env);
    }
  }

  lemma NegativeAdded(vars: seq<Scaled>, v: Expr, s: uint64)
    ensures forall env :: Wrap(ScaledSum(vars + [Scaled(v, Wrap(0 - s))], env)) == Wrap(ScaledSum(vars, env) - s * Eval(v, env))
  {
    hide Wrap;
    forall env ensures Wrap(ScaledSum(vars + [Scaled(v, Wrap(0 - s))], env)) == Wrap(ScaledSum(vars, env) - s * Eval(v, env)) {
      ScaledBoth(vars, [Scaled(v, Wrap(0 - s))], env);
      ScaledOne(Scaled(v, Wrap(0 - s)), env);
      var x, sum := Eval(v, env), ScaledSum(vars, env);
      WrapProduct(0 - s, x);
      WrapSum(sum, Wrap(0 - s) * x);
      WrapSum(sum, (0 - s) * x);
      MulSum(0, s, x);
    }
  }

  /** Which values are known to be equal, in all iterations of loops that matter. */
  type SameValue = (Expr, Expr) -> bool

  /** Takes one entry of the source off the destination (BasicAliasAnalysis.cpp:1385-1410). */
  method SubtractEntry(dest0: seq<Scaled>, v: Expr, scale: uint64, same: SameValue) returns (dest: seq<Scaled>)
    requires (forall a, b :: same(a, b) ==> a == b) && NonZero(dest0) && scale != 0
    ensures forall env :: Wrap(ScaledSum(dest, env)) == Wrap(ScaledSum(dest0, env) - scale * Eval(v, env))
    ensures NonZero(dest)
    ensures Proper(dest0) && same(v, v) ==> Proper(dest)
    ensures AllAtoms(dest0) && v.Atom? ==> AllAtoms(dest)
  {
    hide Wrap;
    dest := dest0;
    var j := 0;
    while j < |dest|
      invariant 0 <= j <= |dest| && dest == dest0
      invariant forall k :: 0 <= k < j ==> !same(dest[k].value, v)
    {
      if same(dest[j].value, v) {
        if dest[j].scale != scale {
          ScaleLowered(dest, j, scale);
          NonZeroDifference(dest[j].scale, scale);
          dest := dest[j := Scaled(dest[j].value, Wrap(dest[j].scale - scale))];
        } else {
          EntryErased(dest, j);
          dest := dest[..j] + dest[j + 1..];
        }
        return;
      }
      j := j + 1;
    }
    NegativeAdded(dest, v, scale);
    NonZeroDifference(0, scale);
    dest := dest + [Scaled(v, Wrap(0 - scale))];
  }

  lemma NonZeroDifference(a: uint64, b: uint64)
    requires a != b
    ensures Wrap(a - b) != 0
  {
  }

  /** The symbolic difference of two sets of variable indices (BasicAliasAnalysis.cpp:1378-1412). */
  method GetIndexDifference(dest0: seq<Scaled>, src: seq<Scaled>, same: SameValue) returns (dest: seq<Scaled>)
    requires (forall a, b :: same(a, b) ==> a == b) && NonZero(dest0) && NonZero(src)
    ensures DifferenceIs(dest, dest0, src) && NonZero(dest)
    ensures Proper(dest0) && (forall a :: same(a, a)) ==> Proper(dest)
    ensures AllAtoms(dest0) && AllAtoms(src) ==> AllAtoms(dest)
  {
    hide Wrap;
    dest := dest0;
    var i := 0;
    while i < |src|
      invariant 0 <= i <= |src| && DifferenceIs(dest, dest0, src[..i]) && NonZero(dest)
      invariant Proper(dest0) && (forall a :: same(a, a)) ==> Proper(dest)
      invariant AllAtoms(dest0) && AllAtoms(src) ==> AllAtoms(dest)
    {
      ghost var before := dest;
      dest := SubtractEntry(dest, src[i].value, src[i].scale, same);
      OneSubtracted(before, dest, dest0, src, i);
      i := i + 1;
    }
    assert src[..i] == src;
  }

  /** Two decompositions with the same base give the true difference of the addresses, for every valuation. */
  lemma DifferenceOfAddresses(p: Ptr, q: Ptr, base: Ptr, base2: Ptr, a: int, b: int, dest: seq<Scaled>, src: seq<Scaled>,
                              diff: seq<Scaled>, env: Env)
    requires AddressIs(p, base, a, dest) && AddressIs(q, base2, b, src) && DifferenceIs(diff, dest, src)
    requires Address(base, env) == Address(base2, env)
    ensures Wrap(Address(p, env) - Address(q, env)) == Wrap(Wrap(a - b) + ScaledSum(diff, env))
  {
    hide *;
    AddressAt(p, base, a, dest, env);
    AddressAt(q, base2, b, src, env);
    DifferenceAt(diff, dest, src, env);
    Differences(Address(base, env), a, ScaledSum(dest, env), b, ScaledSum(src, env), ScaledSum(diff, env));
  }

  lemma DifferenceAt(diff: seq<Scaled>, dest: seq<Scaled>, src: seq<Scaled>, env: Env)
    requires DifferenceIs(diff, dest, src)
    ensures Wrap(ScaledSum(diff, env)) == Wrap(ScaledSum(dest, env) - ScaledSum(src, env))
  {
    hide Wrap, ScaledSum;
  }

  lemma AddressAt(p: Ptr, base: Ptr, offset: int, vars: seq<Scaled>, env: Env)
    requires AddressIs(p, base, offset, vars)
    ensures Address(p, env) == Wrap(Address(base, env) + offset + ScaledSum(vars, env))
  {
    hide Wrap, ScaledSum, Address;
  }

  lemma Differences(x: int, a: int, y: int, b: int, z: int, w: int)
    requires Wrap(w) == Wrap(y - z)
    ensures Wrap(Wrap(x + a + y) - Wrap(x + b + z)) == Wrap(Wrap(a - b) + w)
  {
    hide Wrap;
    WrapSum(x + a + y, 0 - Wrap(x + b + z));
    WrapSum(x + a + y, x + b + z);
    WrapSum(a - b, w);
    WrapSum(a - b, y - z);
  }

  // ---------------------------------------------------------------- the tail of aliasGEP

  datatype AliasResult = NoAlias | MayAlias | PartialAlias | MustAlias

  /** The bits set in any of the scales, down to the lowest (BasicAliasAnalysis.cpp:1042-1045). */
  function Scales(vars: seq<Scaled>): nat {
    if vars == [] then 0 else BitOr(Scales(vars[..|vars| - 1]), vars[|vars| - 1].scale)
  }

  function Modulus(vars: seq<Scaled>): nat {
    LowestBit(Scales(vars))
  }

  function LowestBit(n: nat): nat {
    if n == 0 then 0 else BitXor(n, BitAnd(n, n - 1))
  }

  lemma {:induction false} AndSelf(a: nat)
    ensures BitAnd(a, a) == a && BitXor(a, a) == 0 && BitAnd(a, 0) == 0
  {
    if a != 0 {
      AndSelf(a / 2);
    }
  }

  /** The lowest bit is the largest power of two that divides the number. */
  lemma {:induction false} LowestBitDivides(n: nat) returns (k: nat)
    requires n > 0
    ensures LowestBit(n) == Pow2(k) && n % Pow2(k) == 0 && n % Pow2(k + 1) != 0
  {
    hide LowestBit;
    if n % 2 == 1 {
      k := 0;
      LowestOfOdd(n);
    } else {
      k := LowestBitDivides(n / 2);
      LowestOfEven(n);
      DoubleDivides(n, Pow2(k));
      if n % (2 * Pow2(k + 1)) == 0 {
        HalfDivides(n, Pow2(k + 1));
      }
      k := k + 1;
    }
  }

  lemma AndStep(a: nat, b: nat)
    ensures BitAnd(a, b) == 2 * BitAnd(a / 2, b / 2) + if a % 2 == 1 && b % 2 == 1 then 1 else 0
  {
  }

  lemma XorStep(a: nat, b: nat)
    ensures BitXor(a, b) == 2 * BitXor(a / 2, b / 2) + if a % 2 != b % 2 then 1 else 0
  {
  }

  lemma LowestOfOdd(n: nat)
    requires n % 2 == 1
    ensures LowestBit(n) == 1
  {
    hide BitAnd, BitXor;
    var h := n / 2;
    assert (n - 1) / 2 == h;
    AndStep(n, n - 1);
    XorStep(n, 2 * h);
    AndSelf(h);
  }

  lemma LowestOfEven(n: nat)
    requires n % 2 == 0 && n > 0
    ensures LowestBit(n) == 2 * LowestBit(n / 2)
  {
    hide BitAnd, BitXor;
    var h := n / 2;
    assert (n - 1) / 2 == h - 1;
    AndStep(n, n - 1);
    XorStep(n, 2 * BitAnd(h, h - 1));
  }

  /** A power of two that divides `a | b` divides both. */
  lemma {:induction false} DividesOr(a: nat, b: nat, k: nat)
    requires BitOr(a, b) % Pow2(k) == 0
    ensures a % Pow2(k) == 0 && b % Pow2(k) == 0
    decreases k
  {
    if k > 0 {
      var p := Pow2(k - 1);
      var c := BitOr(a, b);
      HalfDivides(c, p);
      if a != 0 || b != 0 {
        assert c == 2 * BitOr(a / 2, b / 2) + if a % 2 == 1 || b % 2 == 1 then 1 else 0;
        assert c / 2 == BitOr(a / 2, b / 2);
        DividesOr(a / 2, b / 2, k - 1);
        DoubleDivides(a, p);
        DoubleDivides(b, p);
      }
    }
  }

  lemma HalfDivides(c: nat, p: int)
    requires p > 0 && c % (2 * p) == 0
    ensures c % 2 == 0 && (c / 2) % p == 0
  {
    var q := c / (2 * p);
    assert c == q * (2 * p);
    MulAssoc(q, 2, p);
    assert q * 2 * p == 2 * (q * p);
    DivisionUnique(c, 2, q * p, 0);
    DivisionUnique(c / 2, p, q, 0);
  }

  lemma DoubleDivides(a: nat, p: int)
    requires p > 0 && a % 2 == 0 && (a / 2) % p == 0
    ensures a % (2 * p) == 0
  {
    var q := a / 2 / p;
    assert a / 2 == q * p;
    MulAssoc(q, 2, p);
    assert a == q * (2 * p) + 0;
    DivisionUnique(a, 2 * p, q, 0);
  }

  lemma HalfRemainder(a: nat, p: int)
    requires p > 0
    ensures a % (2 * p) == 2 * (a / 2 % p) + a % 2
  {
    var q, r := a / 2 / p, a / 2 % p;
    assert a / 2 == q * p + r;
    MulAssoc(q, 2, p);
    DivisionUnique(a, 2 * p, q, 2 * r + a % 2);
  }

  lemma MaskHalf(a: nat, p: int)
    requires p > 0 && a != 0
    ensures BitAnd(a, 2 * p - 1) == 2 * BitAnd(a / 2, p - 1) + a % 2
  {
    assert (2 * p - 1) / 2 == p - 1 && (2 * p - 1) % 2 == 1;
  }

  lemma {:induction false} AndMask(a: nat, k: nat)
    ensures BitAnd(a, Pow2(k) - 1) == a % Pow2(k)
    decreases k
  {
    hide BitAnd;
    if k == 0 {
      AndSelf(a);
    } else {
      var p := Pow2(k - 1);
      AndMask(a / 2, k - 1);
      HalfRemainder(a, p);
      if a == 0 {
        AndZero(2 * p - 1);
      } else {
        MaskHalf(a, p);
      }
    }
  }

  lemma AndZero(b: nat)
    ensures BitAnd(0, b) == 0
  {
  }

  lemma {:induction false} ScalesDivided(vars: seq<Scaled>, k: nat, i: nat)
    requires Scales(vars) % Pow2(k) == 0 && i < |vars|
    ensures vars[i].scale % Pow2(k) == 0
  {
    var n := |vars| - 1;
    DividesOr(Scales(vars[..n]), vars[n].scale, k);
    if i < n {
      ScalesDivided(vars[..n], k, i);
    }
  }

  lemma {:induction false} OrPositive(a: nat, b: nat)
    requires b > 0
    ensures BitOr(a, b) > 0
  {
    if b % 2 == 0 {
      OrPositive(a / 2, b / 2);
    }
  }

  lemma MultipleSum(x: int, y: int, m: int)
    requires m > 0 && x % m == 0
    ensures (x + y) % m == y % m
  {
    var q := x / m;
    MulSum(q, y / m, m);
    DivisionUnique(x + y, m, q + y / m, y % m);
  }

  lemma MultipleProduct(s: int, v: int, m: int)
    requires m > 0 && s % m == 0
    ensures (s * v) % m == 0
  {
    var q := s / m;
    MulAssoc(q, m, v);
    MulAssoc(q, v, m);
    DivisionUnique(s * v, m, q * v, 0);
  }

  /** All scales being multiples of m, so is the sum. */
  lemma {:induction false} SumDivided(vars: seq<Scaled>, env: Env, m: int)
    requires m > 0 && forall i :: 0 <= i < |vars| ==> vars[i].scale % m == 0
    ensures ScaledSum(vars, env) % m == 0
  {
    if vars != [] {
      var last := vars[|vars| - 1];
      SumDivided(vars[..|vars| - 1], env, m);
      MultipleProduct(last.scale, Eval(last.value, env), m);
      MultipleSum(ScaledSum(vars[..|vars| - 1], env), last.scale * Eval(last.value, env), m);
    }
  }

  /** Two accesses have a byte in common. */
  ghost predicate Overlap(a1: int, s1: int, a2: int, s2: int) {
    exists x: int :: InAccess(x, a1, s1) && InAccess(x, a2, s2)
  }

  predicate InAccess(x: int, a: int, s: int) {
    a <= x < a + s
  }

  lemma OverlapMeans(a1: int, s1: int, a2: int, s2: int)
    ensures Overlap(a1, s1, a2, s2) <==> s1 > 0 && s2 > 0 && a1 < a2 + s2 && a2 < a1 + s1
  {
    if s1 > 0 && s2 > 0 && a1 < a2 + s2 && a2 < a1 + s1 {
      var x := if a1 < a2 then a2 else a1;
      assert InAccess(x, a1, s1) && InAccess(x, a2, s2);
    }
  }

  /** The addresses of two accesses, neither of which wraps around, and what is known about their difference. */
  ghost predicate Accesses(a1: uint64, s1: nat, a2: uint64, s2: nat, difference: int) {
    a1 + s1 <= W && a2 + s2 <= W && Wrap(a1 - a2) == Wrap(difference)
  }

  /** The answer of the modulo test is right for all accesses. */
  lemma ModuloDisjoint(a1: uint64, s1: nat, a2: uint64, s2: nat, difference: int, offset: uint64, k: nat)
    requires Accesses(a1, s1, a2, s2, difference) && k <= 64 && (difference - offset) % Pow2(k) == 0
    requires var m := offset % Pow2(k); s2 <= m && s1 <= Pow2(k) - m
    ensures !Overlap(a1, s1, a2, s2)
  {
    OverlapMeans(a1, s1, a2, s2);
    var p, m := Pow2(k), offset % Pow2(k);
    Pow2Words();
    Pow2Sum(64 - k, k);
    WordsDiffer(a1 - a2, difference, Pow2(64 - k), p);
    MultipleSum(difference - offset, offset, p);
    // the distance of the accesses is m modulo p
    var d := a1 - a2;
    if d < s2 && 0 < d + s1 {
      NoneBetween(d, m, p);
    }
  }

  lemma NoneBetween(d: int, m: int, p: int)
    requires p > 0 && m - p < d < m && 0 <= m < p
    ensures d % p != m
  {
    if d >= 0 {
      DivisionUnique(d, p, 0, d);
    } else {
      DivisionUnique(d, p, -1, d + p);
    }
  }

  lemma WordsDiffer(x: int, y: int, a: int, p: int)
    requires Wrap(x) == Wrap(y) && p > 0 && a * p == W
    ensures x % p == y % p
  {
    var q := x / W - y / W;
    assert x == x / W * W + Wrap(x) && y == y / W * W + Wrap(y);
    MulSum(x / W, y / W, W);
    MulAssoc(q, a, p);
    assert x - y == q * a * p;
    DivisionUnique(x - y, p, q * a, 0);
    MultipleSum(x - y, y, p);
  }

  /** One of the accesses is longer than the way around the address space from the other. */
  predicate TooLong(offset: uint64, s1: nat, s2: nat) {
    if offset < H then s1 > W - offset else s2 > offset
  }

  /** When the constant test answers that there is no alias. */
  predicate ConstantSaysNo(offset: uint64, s1: nat, s2: nat) {
    offset != 0 && if offset < H then s2 <= offset else s1 <= W - offset
  }

  lemma ConstantDisjoint(a1: uint64, s1: nat, a2: uint64, s2: nat, offset: uint64)
    requires Accesses(a1, s1, a2, s2, offset) && ConstantSaysNo(offset, s1, s2) && !TooLong(offset, s1, s2)
    ensures !Overlap(a1, s1, a2, s2)
  {
    OverlapMeans(a1, s1, a2, s2);
    assert a1 == a2 + offset || a1 == a2 + offset - W by {
      DistanceIs(a1, a2, offset);
    }
  }

  lemma DistanceIs(a1: uint64, a2: uint64, offset: uint64)
    requires Wrap(a1 - a2) == Wrap(offset)
    ensures a1 == a2 + offset || a1 == a2 + offset - W
  {
  }

  /**
   A constant difference that the test takes for no alias is one at all addresses just when no access is too
   long, or one is empty: the test does not look at the size of the lower access.
   */
  lemma ConstantAnswerExact(offset: uint64, s1: nat, s2: nat)
    requires ConstantSaysNo(offset, s1, s2) && s1 <= W && s2 <= W
    ensures (forall a1: uint64, a2: uint64 :: Accesses(a1, s1, a2, s2, offset) ==> !Overlap(a1, s1, a2, s2))
            <==> !TooLong(offset, s1, s2) || s1 == 0 || s2 == 0
  {
    if !TooLong(offset, s1, s2) || s1 == 0 || s2 == 0 {
      forall a1: uint64, a2: uint64 | Accesses(a1, s1, a2, s2, offset) ensures !Overlap(a1, s1, a2, s2) {
        if s1 == 0 || s2 == 0 {
          OverlapMeans(a1, s1, a2, s2);
        } else {
          ConstantDisjoint(a1, s1, a2, s2, offset);
        }
      }
    } else {
      var a1, a2 := if offset < H then 0 else offset, if offset < H then W - offset else 0;
      OverlapMeans(a1, s1, a2, s2);
      assert Accesses(a1, s1, a2, s2, offset);
      assert Overlap(a1, s1, a2, s2);
    }
  }

  /** The upper access starts 4 bytes above the lower one and runs almost around to it: the answer is wrong there. */
  lemma ConstantAnswerWrong()
    ensures ConstantSaysNo(4, W - 3, 4) && TooLong(4, W - 3, 4)
    ensures Accesses(0, W - 3, W - 4, 4, 4) && Overlap(0, W - 3, W - 4, 4)
  {
    OverlapMeans(0, W - 3, W - 4, 4);
  }

  ghost predicate Fits(size: Option<nat>, s: nat) {
    size.Some? ==> s == size.value
  }

  /** When an offset alone tells that there is no alias, sizes being known as far as they are looked at. */
  predicate ConstantTest(offset: uint64, v1Size: Option<nat>, v2Size: Option<nat>) {
    v2Size.Some? && (offset < H || v1Size.Some?)
    && ConstantSaysNo(offset, if v1Size.Some? then v1Size.value else 0, v2Size.value)
  }

  /** When the offset modulo what all scales are multiples of tells that there is no alias. */
  predicate ModuloTest(offset: uint64, vars: seq<Scaled>, v1Size: Option<nat>, v2Size: Option<nat>) {
    v1Size.Some? && v2Size.Some? && ModuloSaysNo(offset, Modulus(vars), v1Size.value, v2Size.value)
  }

  predicate ModuloSaysNo(offset: uint64, m: nat, s1: nat, s2: nat) {
    m > 0 && s2 <= offset % m && s1 <= m - offset % m
  }

  /** An answer about two accesses whose addresses differ by `offset` and the variables. */
  ghost predicate AnswerRight(r: AliasResult, offset: uint64, vars: seq<Scaled>, a1: uint64, s1: nat, a2: uint64, s2: nat) {
    && (r == MustAlias ==> a1 == a2)
    && (r == NoAlias && Overlap(a1, s1, a2, s2) ==> vars == [] && TooLong(offset, s1, s2))
  }

  ghost predicate RightEverywhere(r: AliasResult, offset: uint64, vars: seq<Scaled>, v1Size: Option<nat>, v2Size: Option<nat>) {
    forall env, a1: uint64, s1: nat, a2: uint64, s2: nat ::
      Accesses(a1, s1, a2, s2, offset + ScaledSum(vars, env)) && Fits(v1Size, s1) && Fits(v2Size, s2)
      ==> AnswerRight(r, offset, vars, a1, s1, a2, s2)
  }

  /** The modulus of the variable offsets and the offset modulo it (BasicAliasAnalysis.cpp:1041-1050). */
  method ModuloOf(offset: uint64, vars: seq<Scaled>) returns (modulo: nat, modOffset: nat, ghost k: nat)
    requires vars != [] && NonZero(vars)
    ensures modulo == Modulus(vars) && modulo > 0 && modOffset == offset % modulo
    ensures modulo == Pow2(k) && k <= 64 && forall env :: ScaledSum(vars, env) % Pow2(k) == 0
  {
    var all := 0;
    var i := 0;
    while i < |vars|
      invariant 0 <= i <= |vars| && all == Scales(vars[..i])
      invariant i > 0 ==> all > 0
    {
      assert vars[..i + 1][..i] == vars[..i];
      OrPositive(all, vars[i].scale);
      all := BitOr(all, vars[i].scale);
      i := i + 1;
    }
    assert vars[..i] == vars;
    k := LowestBitDivides(all);
    modulo := BitXor(all, BitAnd(all, all - 1));
    AndMask(offset, k);
    modOffset := BitAnd(offset, modulo - 1);
    forall j | 0 <= j < |vars| ensures vars[j].scale % Pow2(k) == 0 {
      ScalesDivided(vars, k, j);
    }
    ScaleBits(vars[0].scale, k);
    forall env ensures ScaledSum(vars, env) % Pow2(k) == 0 {
      SumDivided(vars, env, Pow2(k));
    }
  }

  lemma ScaleBits(scale: uint64, k: nat)
    requires scale != 0 && scale % Pow2(k) == 0
    ensures k <= 64
  {
    if k > 64 {
      Pow2Words();
      Pow2Less(64, k);
      DivisionUnique(scale, Pow2(k), 0, scale);
    }
  }

  /** What the difference of the addresses says (BasicAliasAnalysis.cpp:1002-1054). */
  method AliasFromDifference(offset: uint64, vars: seq<Scaled>, v1Size: Option<nat>, v2Size: Option<nat>) returns (r: AliasResult)
    requires NonZero(vars)
    ensures r != MayAlias && (r == MustAlias <==> offset == 0 && vars == [])
    ensures r == NoAlias <==> if vars == [] then ConstantTest(offset, v1Size, v2Size) else ModuloTest(offset, vars, v1Size, v2Size)
    ensures RightEverywhere(r, offset, vars, v1Size, v2Size)
  {
    hide Accesses, Overlap, TooLong;
    if offset == 0 && vars == [] {
      MustRight(offset, vars);
      return MustAlias;
    }
    if offset != 0 && vars == [] {
      if offset < H {
        if v2Size.Some? {
          if offset < v2Size.value {
            return PartialAlias;
          }
          ConstantRight(offset, v1Size, v2Size);
          return NoAlias;
        }
      } else {
        if v1Size.Some? && v2Size.Some? {
          if W - offset < v1Size.value {
            return PartialAlias;
          }
          ConstantRight(offset, v1Size, v2Size);
          return NoAlias;
        }
      }
    }
    if vars != [] {
      var modulo, modOffset;
      ghost var k;
      modulo, modOffset, k := ModuloOf(offset, vars);
      if v1Size.Some? && v2Size.Some? && modOffset >= v2Size.value && v1Size.value <= modulo - modOffset {
        ModuloRight(offset, vars, v1Size, v2Size, k);
        return NoAlias;
      }
    }
    r := PartialAlias;
  }

  lemma MustRight(offset: uint64, vars: seq<Scaled>)
    requires offset == 0 && vars == []
    ensures forall env, a1: uint64, s1: nat, a2: uint64, s2: nat ::
      Accesses(a1, s1, a2, s2, offset + ScaledSum(vars, env)) ==> AnswerRight(MustAlias, offset, vars, a1, s1, a2, s2)
  {
    forall env, a1: uint64, s1: nat, a2: uint64, s2: nat | Accesses(a1, s1, a2, s2, offset + ScaledSum(vars, env))
      ensures AnswerRight(MustAlias, offset, vars, a1, s1, a2, s2)
    {
      DistanceIs(a1, a2, 0);
    }
  }

  lemma ConstantRight(offset: uint64, v1Size: Option<nat>, v2Size: Option<nat>)
    requires offset != 0
    requires if offset < H then v2Size.Some? && v2Size.value <= offset else v1Size.Some? && v1Size.value <= W - offset
    ensures forall env, a1: uint64, s1: nat, a2: uint64, s2: nat ::
      Accesses(a1, s1, a2, s2, offset + ScaledSum([], env)) && Fits(v1Size, s1) && Fits(v2Size, s2)
      ==> AnswerRight(NoAlias, offset, [], a1, s1, a2, s2)
  {
    hide Accesses, Overlap, TooLong;
    forall env, a1: uint64, s1: nat, a2: uint64, s2: nat |
      Accesses(a1, s1, a2, s2, offset + ScaledSum([], env)) && Fits(v1Size, s1) && Fits(v2Size, s2)
      ensures AnswerRight(NoAlias, offset, [], a1, s1, a2, s2)
    {
      if !TooLong(offset, s1, s2) {
        assert offset + ScaledSum([], env) == offset;
        ConstantDisjoint(a1, s1, a2, s2, offset);
      }
    }
  }

  lemma ModuloRight(offset: uint64, vars: seq<Scaled>, v1Size: Option<nat>, v2Size: Option<nat>, k: nat)
    requires v1Size.Some? && v2Size.Some? && k <= 64 && forall env :: ScaledSum(vars, env) % Pow2(k) == 0
    requires var m := offset % Pow2(k); v2Size.value <= m && v1Size.value <= Pow2(k) - m
    ensures forall env, a1: uint64, s1: nat, a2: uint64, s2: nat ::
      Accesses(a1, s1, a2, s2, offset + ScaledSum(vars, env)) && Fits(v1Size, s1) && Fits(v2Size, s2)
      ==> AnswerRight(NoAlias, offset, vars, a1, s1, a2, s2)
  {
    hide Accesses, Overlap, TooLong;
    forall env, a1: uint64, s1: nat, a2: uint64, s2: nat |
      Accesses(a1, s1, a2, s2, offset + ScaledSum(vars, env)) && Fits(v1Size, s1) && Fits(v2Size, s2)
      ensures AnswerRight(NoAlias, offset, vars, a1, s1, a2, s2)
    {
      ModuloDisjoint(a1, s1, a2, s2, offset + ScaledSum(vars, env), offset, k);
    }
  }

  /** A constant difference within the other access is an overlap. */
  lemma PartialOverlaps(offset: uint64, a1: uint64, s1: nat, a2: uint64, s2: nat)
    requires Accesses(a1, s1, a2, s2, offset) && s1 > 0 && s2 > 0
    requires if offset < H then offset < s2 else W - offset < s1
    ensures Overlap(a1, s1, a2, s2)
  {
    DistanceIs(a1, a2, offset);
    OverlapMeans(a1, s1, a2, s2);
  }

  // ---------------------------------------------------------------- how good the modulo test is

  /** For some values of the variables the two accesses can be so far apart that they have a byte in common. */
  ghost predicate MayMeet(offset: uint64, vars: seq<Scaled>, s1: nat, s2: nat) {
    exists env, d: int :: Wrap(d) == Wrap(offset + ScaledSum(vars, env)) && 0 - s1 < d < s2
  }

  lemma {:induction false} OrDivided(a: nat, b: nat, k: nat)
    requires a % Pow2(k) == 0 && b % Pow2(k) == 0
    ensures BitOr(a, b) % Pow2(k) == 0
    decreases k
  {
    if k > 0 && (a != 0 || b != 0) {
      var p := Pow2(k - 1);
      HalfDivides(a, p);
      HalfDivides(b, p);
      OrDivided(a / 2, b / 2, k - 1);
      assert BitOr(a, b) == 2 * BitOr(a / 2, b / 2);
      DoubleDivides(BitOr(a, b), p);
    }
  }

  lemma {:induction false} SomeScale(vars: seq<Scaled>, k: nat) returns (i: nat)
    requires Scales(vars) % Pow2(k) != 0
    ensures i < |vars| && vars[i].scale % Pow2(k) != 0
  {
    if vars == [] {
      DivisionUnique(0, Pow2(k), 0, 0);
      assert false;
    } else {
      var n := |vars| - 1;
      if vars[n].scale % Pow2(k) != 0 {
        i := n;
      } else {
        if Scales(vars[..n]) % Pow2(k) == 0 {
          OrDivided(Scales(vars[..n]), vars[n].scale, k);
        }
        i := SomeScale(vars[..n], k);
      }
    }
  }

  /** The modulus divides all scales, and one of them has no more factors of two. */
  lemma ModulusOf(vars: seq<Scaled>) returns (k: nat, i: nat)
    requires vars != [] && NonZero(vars)
    ensures Modulus(vars) == Pow2(k) && k <= 63 && forall j :: 0 <= j < |vars| ==> vars[j].scale % Pow2(k) == 0
    ensures i < |vars| && vars[i].scale % Pow2(k + 1) != 0
  {
    OrPositive(Scales(vars[..|vars| - 1]), vars[|vars| - 1].scale);
    k := LowestBitDivides(Scales(vars));
    i := SomeScale(vars, k + 1);
    forall j | 0 <= j < |vars| ensures vars[j].scale % Pow2(k) == 0 {
      ScalesDivided(vars, k, j);
    }
    ScaleBits(vars[0].scale, k);
    NotAllBits(vars[0].scale, k);
  }

  lemma NotAllBits(scale: uint64, k: nat)
    requires scale != 0 && scale % Pow2(k) == 0
    ensures k != 64
  {
    Pow2Words();
    if k == 64 {
      DivisionUnique(scale, W, 0, scale);
    }
  }

  /** Odd numbers have inverses modulo powers of two. */
  lemma {:induction false} OddInverse(a: nat, n: nat) returns (b: nat, q: int)
    requires a % 2 == 1
    ensures a * b == 1 + q * Pow2(n)
    decreases n
  {
    if n == 0 {
      b, q := 1, a - 1;
    } else {
      assert Pow2(n) == 2 * Pow2(n - 1);
      var b1, q1 := OddInverse(a, n - 1);
      b, q := NextInverse(a, b1, q1, Pow2(n - 1));
    }
  }

  lemma NextInverse(a: nat, b1: nat, q1: int, p: nat) returns (b: nat, q: int)
    requires a % 2 == 1 && a * b1 == 1 + q1 * p
    ensures a * b == 1 + q * (2 * p)
  {
    if q1 % 2 == 0 {
      HalfTwice(q1, p);
      b, q := b1, q1 / 2;
    } else {
      b, q := b1 + p, (q1 + a) / 2;
      HalfTwice(q1 + a, p);
      MulSum(q1, a, p);
      MulSum(b1, p, a);
      assert (b1 + p) * a == a * (b1 + p) && b1 * a == a * b1 && p * a == a * p;
    }
  }

  lemma HalfTwice(q: int, p: int)
    requires q % 2 == 0
    ensures q * p == q / 2 * (2 * p)
  {
    MulAssoc(q / 2, 2, p);
  }

  lemma {:induction false} AllZero(vars: seq<Scaled>, env: Env)
    requires forall j :: 0 <= j < |vars| ==> Eval(vars[j].value, env) == 0
    ensures ScaledSum(vars, env) == 0
  {
    if vars != [] {
      AllZero(vars[..|vars| - 1], env);
    }
  }

  lemma {:induction false} OnlyOne(vars: seq<Scaled>, i: nat, env: Env)
    requires i < |vars| && forall j :: 0 <= j < |vars| && j != i ==> Eval(vars[j].value, env) == 0
    ensures ScaledSum(vars, env) == vars[i].scale * Eval(vars[i].value, env)
  {
    var n := |vars| - 1;
    if i < n {
      OnlyOne(vars[..n], i, env);
    } else {
      AllZero(vars[..n], env);
    }
  }

  lemma OddPart(scale: nat, k: nat)
    requires scale % Pow2(k) == 0 && scale % Pow2(k + 1) != 0
    ensures scale / Pow2(k) % 2 == 1 && scale == scale / Pow2(k) * Pow2(k) && scale / Pow2(k) >= 0
  {
    var p, o := Pow2(k), scale / Pow2(k);
    DivMod(scale, p);
    if o % 2 == 0 {
      HalfTwice(o, p);
      DivisionUnique(scale, 2 * p, o / 2, 0);
    }
  }

  /** Every multiple of the modulus is reached by some values of the variables. */
  lemma MultipleReached(vars: seq<Scaled>, i: nat, k: nat, t: int) returns (env: Env)
    requires AllAtoms(vars) && Proper(vars) && i < |vars| && vars[i].scale % Pow2(k) == 0 && vars[i].scale % Pow2(k + 1) != 0
    ensures Wrap(ScaledSum(vars, env)) == Wrap(t * Pow2(k))
  {
    var scale, id := vars[i].scale, vars[i].value.id;
    OddPart(scale, k);
    var odd := scale / Pow2(k);
    var b, q := OddInverse(odd, 64);
    Pow2Words();
    var x: uint64 := Wrap(t * b);
    env := Env(n => if n == id then x else 0, n => 0);
    forall j | 0 <= j < |vars| && j != i ensures Eval(vars[j].value, env) == 0 {
      assert vars[j].value != vars[i].value;
    }
    OnlyOne(vars, i, env);
    SolutionOf(scale, odd, Pow2(k), b, q, t);
  }

  lemma SolutionOf(scale: int, odd: int, m: int, b: int, q: int, t: int)
    requires scale == odd * m && odd * b == 1 + q * W
    ensures Wrap(scale * Wrap(t * b)) == Wrap(t * m)
  {
    hide Wrap;
    WrapProduct(t * b, scale);
    var tm := t * m;
    assert scale * (t * b) == tm * (odd * b) by {
      MulAssoc(odd, m, t * b);
      MulAssoc(m, t, b);
      assert m * t == tm;
      MulAssoc(odd, tm, b);
      MulAssoc(tm, odd, b);
      assert odd * tm == tm * odd;
    }
    MulSum(1, q * W, tm);
    assert tm * (1 + q * W) == tm + tm * (q * W);
    MulAssoc(tm, q, W);
    WrapPlus(tm, tm * q);
  }

  /** The modulo test is exact for free variables: it says no just when no values of the variables let the accesses meet. */
  lemma ModuloTestExact(offset: uint64, vars: seq<Scaled>, s1: nat, s2: nat)
    requires vars != [] && Proper(vars) && AllAtoms(vars) && s1 > 0 && s2 > 0
    ensures ModuloTest(offset, vars, Some(s1), Some(s2)) <==> !MayMeet(offset, vars, s1, s2)
  {
    hide Modulus, MayMeet;
    var k, i := ModulusOf(vars);
    var m := Pow2(k);
    if ModuloTest(offset, vars, Some(s1), Some(s2)) {
      NeverMeets(offset, vars, s1, s2, k);
    } else {
      var r := offset % m;
      var d := if s2 > r then r else r - m;
      DivMod(offset, m);
      var t := (if s2 > r then 0 else -1) - offset / m;
      var env := MultipleReached(vars, i, k, t);
      MulSum(if s2 > r then 0 else -1, offset / m, m);
      assert offset + t * m == d;
      SameDistance(offset, ScaledSum(vars, env), t * m);
      MeetsAt(offset, vars, s1, s2, env, d);
    }
  }

  lemma SameDistance(offset: int, x: int, y: int)
    requires Wrap(x) == Wrap(y)
    ensures Wrap(offset + x) == Wrap(offset + y)
  {
    hide Wrap;
    WrapSum(offset, x);
    WrapSum(offset, y);
  }

  lemma MeetsAt(offset: uint64, vars: seq<Scaled>, s1: nat, s2: nat, env: Env, d: int)
    requires Wrap(d) == Wrap(offset + ScaledSum(vars, env)) && 0 - s1 < d < s2
    ensures MayMeet(offset, vars, s1, s2)
  {
  }

  lemma NeverMeets(offset: uint64, vars: seq<Scaled>, s1: nat, s2: nat, k: nat)
    requires k <= 64 && forall j :: 0 <= j < |vars| ==> vars[j].scale % Pow2(k) == 0
    requires ModuloSaysNo(offset, Pow2(k), s1, s2)
    ensures !MayMeet(offset, vars, s1, s2)
  {
    forall env, d: int | Wrap(d) == Wrap(offset + ScaledSum(vars, env)) ensures !(0 - s1 < d < s2) {
      SumDivided(vars, env, Pow2(k));
      hide *;
      DistanceApart(offset, ScaledSum(vars, env), d, s1, s2, k);
    }
  }

  lemma DistanceApart(offset: uint64, sum: int, d: int, s1: nat, s2: nat, k: nat)
    requires k <= 64 && sum % Pow2(k) == 0 && Wrap(d) == Wrap(offset + sum) && ModuloSaysNo(offset, Pow2(k), s1, s2)
    ensures !(0 - s1 < d < s2)
  {
    Pow2Words();
    Pow2Sum(64 - k, k);
    hide Wrap, Pow2;
    WordsDiffer(d, offset + sum, Pow2(64 - k), Pow2(k));
    MultipleSum(sum, offset, Pow2(k));
    if 0 - s1 < d < s2 {
      NoneBetween(d, offset % Pow2(k), Pow2(k));
    }
  }

  // ---------------------------------------------------------------- how good the answer is

  /** The constant test, where no access is too long, is exact as well. */
  lemma ConstantTestExact(offset: uint64, s1: nat, s2: nat)
    requires s1 > 0 && s2 > 0
    ensures ConstantSaysNo(offset, s1, s2) && !TooLong(offset, s1, s2) <==> !MayMeet(offset, [], s1, s2)
  {
    if offset < s2 {
      MeetsAtConstant(offset, s1, s2, offset);
    } else if s1 > W - offset {
      MeetsAtConstant(offset, s1, s2, offset - W);
    } else {
      forall env, d: int | Wrap(d) == Wrap(offset + ScaledSum([], env)) ensures !(0 - s1 < d < s2) {
        NoVariables([], env);
        BetweenWords(d, offset);
      }
    }
  }

  lemma MeetsAtConstant(offset: uint64, s1: nat, s2: nat, d: int)
    requires Wrap(d) == Wrap(offset) && 0 - s1 < d < s2
    ensures MayMeet(offset, [], s1, s2)
  {
    var env := Env(n => 0, n => 0);
    NoVariables([], env);
    MeetsAt(offset, [], s1, s2, env, d);
  }

  lemma BetweenWords(d: int, offset: uint64)
    requires Wrap(d) == Wrap(offset)
    ensures d >= offset || d <= offset - W
  {
  }

  /** At some values of the variables and of the addresses of objects the accesses have a byte in common. */
  ghost predicate AddressesMeet(p: Ptr, q: Ptr, s1: nat, s2: nat) {
    exists env, d: int :: DifferBy(p, q, env, d) && 0 - s1 < d < s2
  }

  ghost predicate DifferBy(p: Ptr, q: Ptr, env: Env, d: int) {
    Wrap(d) == Wrap(Address(p, env) - Address(q, env))
  }

  ghost predicate DifferenceAll(p: Ptr, q: Ptr, offset: uint64, vars: seq<Scaled>) {
    forall env :: Wrap(Address(p, env) - Address(q, env)) == Wrap(offset + ScaledSum(vars, env))
  }

  lemma MeetingIs(p: Ptr, q: Ptr, offset: uint64, vars: seq<Scaled>, s1: nat, s2: nat)
    requires DifferenceAll(p, q, offset, vars)
    ensures AddressesMeet(p, q, s1, s2) <==> MayMeet(offset, vars, s1, s2)
  {
    hide Wrap, Address, ScaledSum;
    if MayMeet(offset, vars, s1, s2) {
      var env, d: int :| Wrap(d) == Wrap(offset + ScaledSum(vars, env)) && 0 - s1 < d < s2;
      assert DifferBy(p, q, env, d);
    }
    if AddressesMeet(p, q, s1, s2) {
      var env, d: int :| DifferBy(p, q, env, d) && 0 - s1 < d < s2;
      MeetsAt(offset, vars, s1, s2, env, d);
    }
  }

  /** With free variables left over, the addresses are not always equal. */
  lemma SomewhereApart(p: Ptr, q: Ptr, offset: uint64, vars: seq<Scaled>)
    requires DifferenceAll(p, q, offset, vars) && vars != [] && Proper(vars) && AllAtoms(vars)
    ensures exists env :: Address(p, env) != Address(q, env)
  {
    hide Address, Modulus, Proper, AllAtoms, ScaledSum, Wrap;
    ProperNonZero(vars);
    var k, i := ModulusOf(vars);
    var env0 := MultipleReached(vars, i, k, 0);
    var env1 := MultipleReached(vars, i, k, 1);
    SameDistance(offset, ScaledSum(vars, env0), 0);
    SameDistance(offset, ScaledSum(vars, env1), Pow2(k));
    PowerApart(offset, k);
    assert Wrap(Address(p, env0) - Address(q, env0)) == Wrap(offset);
    assert Wrap(Address(p, env1) - Address(q, env1)) == Wrap(offset + Pow2(k));
  }

  lemma PowerApart(offset: uint64, k: nat)
    requires k <= 63
    ensures Wrap(offset) != Wrap(offset + Pow2(k)) && Wrap(offset) == offset
  {
    hide Pow2;
    Pow2Words();
    Pow2AtMost(k, 63);
    WordApart(offset, Pow2(k));
  }

  lemma WordApart(offset: uint64, m: int)
    requires 0 < m < W
    ensures Wrap(offset) != Wrap(offset + m) && Wrap(offset) == offset
  {
  }

  lemma MustExact(p: Ptr, q: Ptr, offset: uint64, vars: seq<Scaled>)
    requires DifferenceAll(p, q, offset, vars) && Proper(vars) && AllAtoms(vars)
    ensures (offset == 0 && vars == []) <==> forall env :: Address(p, env) == Address(q, env)
  {
    hide Address, ScaledSum;
    var env := Env(n => 0, n => 0);
    if vars != [] {
      SomewhereApart(p, q, offset, vars);
    } else {
      assert Wrap(Address(p, env) - Address(q, env)) == Wrap(offset + ScaledSum(vars, env));
      forall env ensures Wrap(Address(p, env) - Address(q, env)) == Wrap(offset) {
        NoVariables(vars, env);
      }
    }
  }

  lemma NoExact(p: Ptr, q: Ptr, offset: uint64, vars: seq<Scaled>, s1: nat, s2: nat)
    requires DifferenceAll(p, q, offset, vars) && Proper(vars) && AllAtoms(vars) && s1 > 0 && s2 > 0
    ensures var no := if vars == [] then ConstantTest(offset, Some(s1), Some(s2)) else ModuloTest(offset, vars, Some(s1), Some(s2));
            no && !(vars == [] && TooLong(offset, s1, s2)) <==> !AddressesMeet(p, q, s1, s2)
  {
    hide DifferenceAll, AddressesMeet, MayMeet, Proper, AllAtoms, TooLong, ModuloTest;
    MeetingIs(p, q, offset, vars, s1, s2);
    if vars == [] {
      ConstantTestExact(offset, s1, s2);
    } else {
      ModuloTestExact(offset, vars, s1, s2);
    }
  }

  // ---------------------------------------------------------------- two GEPs

  ghost predicate Known(size: Option<nat>) {
    size.Some? && size.value > 0
  }

  /**
   Two GEPs whose underlying objects must alias (BasicAliasAnalysis.cpp:937-965, 1002-1054).  The answer is that
   of the tests for the true difference of the addresses.  MustAlias is right; so is NoAlias, except that with a
   constant difference one access may reach around the address space.  For simple indices the answers are exact:
   MustAlias just when the addresses are always equal, and NoAlias just when they are never so close that the
   accesses meet, but for accesses that are too long.
   */
  method AliasGEPs(p: Ptr, v1Size: Option<nat>, q: Ptr, v2Size: Option<nat>, zero: KnownBits, same: SameValue)
    returns (r: AliasResult, ghost offset: uint64, ghost vars: seq<Scaled>)
    requires Sound(zero) && (forall a, b :: same(a, b) ==> a == b)
    requires forall env :: Address(Underlying(p), env) == Address(Underlying(q), env)
    ensures r == MayAlias <==> Steps(p) >= 6 || Steps(q) >= 6
    ensures r != MayAlias && (forall a :: same(a, a)) && Simple(p, zero) && Simple(q, zero) ==>
      (r == MustAlias <==> forall env :: Address(p, env) == Address(q, env))
    ensures r != MayAlias && (forall a :: same(a, a)) && Simple(p, zero) && Simple(q, zero) && Known(v1Size) && Known(v2Size) ==>
      (r == NoAlias && !(vars == [] && TooLong(offset, v1Size.value, v2Size.value)) <==> !AddressesMeet(p, q, v1Size.value, v2Size.value))
    ensures r != MayAlias ==> (r == MustAlias <==> offset == 0 && vars == [])
    ensures r != MayAlias ==>
      (r == NoAlias <==> if vars == [] then ConstantTest(offset, v1Size, v2Size) else ModuloTest(offset, vars, v1Size, v2Size))
    ensures r != MayAlias ==> DifferenceAll(p, q, offset, vars)
    ensures r != MayAlias && (forall a :: same(a, a)) ==> Proper(vars)
    ensures forall env :: r == MustAlias ==> Address(p, env) == Address(q, env)
    ensures forall env, s1: nat, s2: nat {:trigger Overlap(Address(p, env), s1, Address(q, env), s2)} ::
      (r == NoAlias && Fits(v1Size, s1) && Fits(v2Size, s2) && Address(p, env) + s1 <= W && Address(q, env) + s2 <= W
       && Overlap(Address(p, env), s1, Address(q, env), s2)) ==> vars == [] && TooLong(offset, s1, s2)
  {
    hide Sound, AddressIs, DifferenceIs, Proper, NonZero, Overlap, TooLong, Wrap, ConstantTest, ModuloTest, Underlying, Steps, ScaledSum, Address, AllAtoms, Simple, AddressesMeet, DifferenceAll, RightEverywhere;
    var d1 := DecomposeGEPExpression(p, zero);
    var d2 := DecomposeGEPExpression(q, zero);
    if d1.maxLookupReached || d2.maxLookupReached {
      return MayAlias, 0, [];
    }
    ProperNonZero(d1.vars);
    ProperNonZero(d2.vars);
    var gep1BaseOffset := Wrap(d1.offset - d2.offset);
    var difference := GetIndexDifference(d1.vars, d2.vars, same);
    offset, vars := gep1BaseOffset, difference;
    r := AliasFromDifference(gep1BaseOffset, difference, v1Size, v2Size);
    DifferenceFound(p, q, d1.base, d2.base, d1.offset, d2.offset, d1.vars, d2.vars, vars);
    AnswerFor(p, q, r, offset, vars, v1Size, v2Size);
    if (forall a :: same(a, a)) && Simple(p, zero) && Simple(q, zero) {
      MustExact(p, q, offset, vars);
      if Known(v1Size) && Known(v2Size) {
        NoExact(p, q, offset, vars, v1Size.value, v2Size.value);
      }
    }
  }

  lemma DifferenceFound(p: Ptr, q: Ptr, base: Ptr, base2: Ptr, a: uint64, b: uint64, dest: seq<Scaled>, src: seq<Scaled>, diff: seq<Scaled>)
    requires AddressIs(p, base, a, dest) && AddressIs(q, base2, b, src) && DifferenceIs(diff, dest, src)
    requires forall env :: Address(base, env) == Address(base2, env)
    ensures DifferenceAll(p, q, Wrap(a - b), diff)
  {
    hide AddressIs, DifferenceIs, Wrap, ScaledSum, Address;
    forall env ensures Wrap(Address(p, env) - Address(q, env)) == Wrap(Wrap(a - b) + ScaledSum(diff, env)) {
      DifferenceOfAddresses(p, q, base, base2, a, b, dest, src, diff, env);
    }
  }

  /** An answer for the difference is one for the accesses. */
  lemma AnswerFor(p: Ptr, q: Ptr, r: AliasResult, offset: uint64, vars: seq<Scaled>, v1Size: Option<nat>, v2Size: Option<nat>)
    requires DifferenceAll(p, q, offset, vars) && RightEverywhere(r, offset, vars, v1Size, v2Size)
    requires r == MustAlias ==> offset == 0 && vars == []
    ensures forall env :: r == MustAlias ==> Address(p, env) == Address(q, env)
    ensures forall env, s1: nat, s2: nat {:trigger Overlap(Address(p, env), s1, Address(q, env), s2)} ::
      (r == NoAlias && Fits(v1Size, s1) && Fits(v2Size, s2) && Address(p, env) + s1 <= W && Address(q, env) + s2 <= W
       && Overlap(Address(p, env), s1, Address(q, env), s2)) ==> vars == [] && TooLong(offset, s1, s2)
  {
    hide Overlap, TooLong, Wrap, ScaledSum, Address;
    if r == MustAlias {
      forall env ensures Address(p, env) == Address(q, env) {
        assert Wrap(Address(p, env) - Address(q, env)) == Wrap(offset + ScaledSum(vars, env));
        NoVariables(vars, env);
        DistanceIs(Address(p, env), Address(q, env), 0);
      }
    }
    forall env, s1: nat, s2: nat |
      r == NoAlias && Fits(v1Size, s1) && Fits(v2Size, s2) && Address(p, env) + s1 <= W && Address(q, env) + s2 <= W
      ensures Overlap(Address(p, env), s1, Address(q, env), s2) ==> vars == [] && TooLong(offset, s1, s2)
    {
      assert Accesses(Address(p, env), s1, Address(q, env), s2, offset + ScaledSum(vars, env));
      assert AnswerRight(r, offset, vars, Address(p, env), s1, Address(q, env), s2);
    }
  }

  lemma OneIndexAddress(o: nat, index: Index, env: Env)
    ensures Address(Gep(Object(o), [index]), env) == Wrap(env.address(o) + IndexBytes(index, env))
  {
    hide IndexBytes;
    assert [index][..0] == [] && Bytes([], env) == 0;
  }

  /** The addresses of A[i+1] and A[i]. */
  lemma NeighbourBytes(size: uint64, x: uint64, a: uint64, d: int)
    requires 2 * size <= W && Wrap(d) == Wrap(Wrap(a + Wrap(size * Wrap(x + 1))) - Wrap(a + Wrap(size * x)))
    ensures d >= size || d <= size - W
  {
    hide Wrap;
    var u, v := size * Wrap(x + 1), size * x;
    WrapSum(a, u);
    WrapSum(a, v);
    WrapProduct(x + 1, size);
    WrapSum(a, size * (x + 1));
    assert size * (x + 1) == v + size;
    WrapSum(a + v + size, 0 - Wrap(a + v));
    WrapSum(a + v + size, a + v);
    BetweenWords(d, size);
  }

  /** A[i+1] and A[i]: the index is looked through, and accesses within the elements never meet. */
  lemma NeighboursApart(o: nat, i: nat, sum: nat, size: uint64, s1: nat, s2: nat, zero: KnownBits)
    requires 0 < s1 <= size && 0 < s2 <= size && 2 * size <= W
    ensures var p, q := Gep(Object(o), [Variable(size, Add(sum, Atom(i), 1))]), Gep(Object(o), [Variable(size, Atom(i))]);
            Simple(p, zero) && Simple(q, zero) && Steps(p) == Steps(q) == 1 && !AddressesMeet(p, q, s1, s2)
  {
    hide Address, Wrap, Bytes;
    var x, y := Variable(size, Add(sum, Atom(i), 1)), Variable(size, Atom(i));
    assert OverAtom(x.e, 6, zero);
    hide OverAtom, LookedThrough;
    forall env, d: int | DifferBy(Gep(Object(o), [x]), Gep(Object(o), [y]), env, d) ensures !(0 - s1 < d < s2) {
      OneIndexAddress(o, x, env);
      OneIndexAddress(o, y, env);
      NeighbourBytes(size, env.value(i), env.address(o), d);
    }
  }

  lemma NoVariables(vars: seq<Scaled>, env: Env)
    requires vars == []
    ensures ScaledSum(vars, env) == 0
  {
  }

  lemma ProperNonZero(vars: seq<Scaled>)
    requires Proper(vars)
    ensures NonZero(vars)
  {
  }
}
