/**
 * Stable sorting by a key, as Python's `list.sort(key=...)` does it, and
 * the "first/last extremum" indices that picking `[0]` or `[-1]` of such a
 * sort amounts to.
 */
module Ordenacao {

  /** `s` is in ascending order of the key `f`. */
  predicate Ordenada<T>(s: seq<T>, f: T -> real) {
    forall i, j :: 0 <= i < j < |s| ==> f(s[i]) <= f(s[j])
  }

  /** The elements of `s` whose key is `k`, in the order they have in `s`. */
  function ComChave<T>(s: seq<T>, f: T -> real, k: real): seq<T> {
    if s == [] then []
    else (if f(s[0]) == k then [s[0]] else []) + ComChave(s[1..], f, k)
  }

  lemma {:induction false} ComChaveMembros<T>(s: seq<T>, f: T -> real, k: real)
    ensures forall x :: x in ComChave(s, f, k) ==> x in s && f(x) == k
  {
    if s != [] {
      ComChaveMembros(s[1..], f, k);
    }
  }

  lemma {:induction false} ComChaveNaoVazia<T>(s: seq<T>, f: T -> real, i: nat)
    requires i < |s|
    ensures ComChave(s, f, f(s[i])) != []
  {
    if i > 0 {
      ComChaveNaoVazia(s[1..], f, i - 1);
    }
  }

  /** The key `f` with its order reversed: sorting by it is `sort(key=f, reverse=True)`. */
  function Oposta<T>(f: T -> real): T -> real {
    x => -f(x)
  }

  /** Putting `h` in front of the sorted `t` keeps it sorted when no key of `t` is smaller. */
  lemma OrdenadaCons<T>(h: T, t: seq<T>, f: T -> real)
    requires Ordenada(t, f)
    requires forall j :: 0 <= j < |t| ==> f(h) <= f(t[j])
    ensures Ordenada([h] + t, f)
  {
    var o := [h] + t;
    forall i, j | 0 <= i < j < |o| ensures f(o[i]) <= f(o[j]) {
      if i > 0 {
        assert o[i] == t[i - 1] && o[j] == t[j - 1];
      } else {
        assert o[j] == t[j - 1];
      }
    }
  }

  /** Inserts `x` in front of the first element of `r` whose key is not smaller. */
  function Inserir<T>(x: T, r: seq<T>, f: T -> real): (o: seq<T>)
    ensures |o| == |r| + 1 && multiset(o) == multiset(r) + multiset{x}
  {
    if r == [] || f(x) <= f(r[0]) then [x] + r
    else
      assert r == [r[0]] + r[1..];
      [r[0]] + Inserir(x, r[1..], f)
  }

  lemma {:induction false} InserirOrdenada<T>(x: T, r: seq<T>, f: T -> real)
    requires Ordenada(r, f)
    ensures Ordenada(Inserir(x, r, f), f)
  {
    if r == [] || f(x) <= f(r[0]) {
      OrdenadaCons(x, r, f);
    } else {
      var t := r[1..];
      var o' := Inserir(x, t, f);
      assert Ordenada(t, f);
      InserirOrdenada(x, t, f);
      forall j | 0 <= j < |o'| ensures f(r[0]) <= f(o'[j]) {
        assert o'[j] in multiset(o');
        if o'[j] != x {
          assert o'[j] in multiset(t);
          var c :| 0 <= c < |t| && t[c] == o'[j];
          assert r[c + 1] == t[c];
        }
      }
      OrdenadaCons(r[0], o', f);
    }
  }

  /** Inserting `x` puts it in front of every element with the same key. */
  lemma {:induction false} InserirComChave<T>(x: T, r: seq<T>, f: T -> real, k: real)
    requires Ordenada(r, f)
    ensures ComChave(Inserir(x, r, f), f, k) == (if f(x) == k then [x] else []) + ComChave(r, f, k)
  {
    var o := Inserir(x, r, f);
    if r == [] || f(x) <= f(r[0]) {
      assert o == [x] + r;
      assert o[1..] == r;
    } else {
      var o' := Inserir(x, r[1..], f);
      assert o == [r[0]] + o';
      assert o[1..] == o';
      assert Ordenada(r[1..], f);
      InserirComChave(x, r[1..], f, k);
      assert ComChave(r, f, k) == (if f(r[0]) == k then [r[0]] else []) + ComChave(r[1..], f, k);
      assert ComChave(o, f, k) == (if f(r[0]) == k then [r[0]] else []) + ComChave(o', f, k);
      if f(r[0]) == k {
        assert f(x) != k;
      }
    }
  }

  /** Stable insertion sort by ascending key (Python's `sorted(s, key=f)`). */
  function OrdenarPor<T>(s: seq<T>, f: T -> real): (o: seq<T>)
    ensures Ordenada(o, f)
    ensures |o| == |s| && multiset(o) == multiset(s)
  {
    if s == [] then []
    else
      assert s == [s[0]] + s[1..];
      var r := OrdenarPor(s[1..], f);
      InserirOrdenada(s[0], r, f);
      var o := Inserir(s[0], r, f);
      assert |o| == |multiset(o)| == |s|;
      o
  }

  /** The sort is stable: elements with equal keys keep their relative order. */
  lemma {:induction false} OrdenarPorEstavel<T>(s: seq<T>, f: T -> real, k: real)
    ensures ComChave(OrdenarPor(s, f), f, k) == ComChave(s, f, k)
  {
    if s != [] {
      var r := OrdenarPor(s[1..], f);
      OrdenarPorEstavel(s[1..], f, k);
      InserirComChave(s[0], r, f, k);
    }
  }

  /** Two sorted sequences that agree key by key are equal. */
  lemma {:induction false} OrdenadasIguais<T>(a: seq<T>, b: seq<T>, f: T -> real)
    requires Ordenada(a, f) && Ordenada(b, f)
    requires forall k :: ComChave(a, f, k) == ComChave(b, f, k)
    ensures a == b
  {
    if a == [] || b == [] {
      if a != b {
        var c := if a == [] then b else a;
        ComChaveNaoVazia(c, f, 0);
        assert false;
      }
    } else {
      var ka, kb := f(a[0]), f(b[0]);
      assert ComChave(a, f, ka)[0] == a[0];
      ComChaveMembros(b, f, ka);
      var y := ComChave(b, f, ka)[0];
      assert y in b && f(y) == ka;
      assert kb <= ka;
      assert ComChave(b, f, kb)[0] == b[0];
      ComChaveMembros(a, f, kb);
      var z := ComChave(a, f, kb)[0];
      assert z in a && f(z) == kb;
      assert ka <= kb;
      assert a[0] == b[0];
      forall k ensures ComChave(a[1..], f, k) == ComChave(b[1..], f, k) {
        var p := if f(a[0]) == k then [a[0]] else [];
        var ca, cb := ComChave(a[1..], f, k), ComChave(b[1..], f, k);
        assert p + ca == ComChave(a, f, k) == ComChave(b, f, k) == p + cb;
        assert ca == (p + ca)[|p|..];
        assert cb == (p + cb)[|p|..];
      }
      OrdenadasIguais(a[1..], b[1..], f);
      assert a == [a[0]] + a[1..] && b == [b[0]] + b[1..];
    }
  }

  /**
   * A stable sort is determined by its properties: any sorted rearrangement
   * of `s` that keeps the order of equal keys is OrdenarPor(s, f).
   */
  lemma OrdenacaoEstavelUnica<T>(s: seq<T>, o: seq<T>, f: T -> real)
    requires Ordenada(o, f)
    requires forall k :: ComChave(o, f, k) == ComChave(s, f, k)
    ensures o == OrdenarPor(s, f)
  {
    forall k ensures ComChave(o, f, k) == ComChave(OrdenarPor(s, f), f, k) {
      OrdenarPorEstavel(s, f, k);
    }
    OrdenadasIguais(o, OrdenarPor(s, f), f);
  }

  /** Index of the first element of `s` with the smallest key. */
  function PrimeiroMinimo<T>(s: seq<T>, f: T -> real): (i: nat)
    requires |s| > 0
    ensures i < |s|
    ensures forall j :: 0 <= j < |s| ==> f(s[i]) <= f(s[j])
    ensures forall j :: 0 <= j < i ==> f(s[i]) < f(s[j])
  {
    if |s| == 1 then 0
    else
      var m := PrimeiroMinimo(s[1..], f) + 1;
      if f(s[0]) <= f(s[m]) then 0 else m
  }

  /** Index of the last element of `s` with the largest key. */
  function UltimoMaximo<T>(s: seq<T>, f: T -> real): (i: nat)
    requires |s| > 0
    ensures i < |s|
    ensures forall j :: 0 <= j < |s| ==> f(s[j]) <= f(s[i])
    ensures forall j :: i < j < |s| ==> f(s[j]) < f(s[i])
  {
    if |s| == 1 then 0
    else
      var m := UltimoMaximo(s[1..], f) + 1;
      if f(s[0]) > f(s[m]) then 0 else m
  }

  /** Index of the first element of `s` with the largest key. */
  function PrimeiroMaximo<T>(s: seq<T>, f: T -> real): (i: nat)
    requires |s| > 0
    ensures i < |s|
    ensures forall j :: 0 <= j < |s| ==> f(s[j]) <= f(s[i])
    ensures forall j :: 0 <= j < i ==> f(s[j]) < f(s[i])
  {
    var i := PrimeiroMinimo(s, Oposta(f));
    assert forall j :: 0 <= j < |s| ==> Oposta(f)(s[j]) == -f(s[j]);
    i
  }

  /** `sorted(s, key=f)[0]` is the first element with the smallest key. */
  lemma {:induction false} PrimeiroDaOrdenacao<T>(s: seq<T>, f: T -> real)
    requires |s| > 0
    ensures OrdenarPor(s, f)[0] == s[PrimeiroMinimo(s, f)]
  {
    if |s| > 1 {
      PrimeiroDaOrdenacao(s[1..], f);
    }
  }

  /** Inserting into a sorted sequence leaves its last element last unless `x` has a larger key. */
  lemma {:induction false} InserirUltimo<T>(x: T, r: seq<T>, f: T -> real)
    requires Ordenada(r, f) && r != []
    ensures Inserir(x, r, f)[|r|] == if f(x) > f(r[|r| - 1]) then x else r[|r| - 1]
  {
    if f(x) <= f(r[0]) {
      assert f(r[0]) <= f(r[|r| - 1]);
    } else if |r| == 1 {
    } else {
      assert Ordenada(r[1..], f);
      InserirUltimo(x, r[1..], f);
    }
  }

  /** `sorted(s, key=f)[-1]` is the last element with the largest key. */
  lemma {:induction false} UltimoDaOrdenacao<T>(s: seq<T>, f: T -> real)
    requires |s| > 0
    ensures OrdenarPor(s, f)[|s| - 1] == s[UltimoMaximo(s, f)]
  {
    if |s| > 1 {
      UltimoDaOrdenacao(s[1..], f);
      InserirUltimo(s[0], OrdenarPor(s[1..], f), f);
    }
  }

  /** `sorted(s, key=f, reverse=True)[0]` is the first element with the largest key. */
  lemma PrimeiroDaOrdenacaoInversa<T>(s: seq<T>, f: T -> real)
    requires |s| > 0
    ensures OrdenarPor(s, Oposta(f))[0] == s[PrimeiroMaximo(s, f)]
  {
    PrimeiroDaOrdenacao(s, Oposta(f));
  }

  /** `s` is in strictly increasing order of (key, tag). */
  predicate LexCrescente<T>(s: seq<(nat, T)>, f: ((nat, T)) -> real) {
    forall a, b :: 0 <= a < b < |s| ==>
      f(s[a]) < f(s[b]) || (f(s[a]) == f(s[b]) && s[a].0 < s[b].0)
  }

  lemma LexCons<T>(h: (nat, T), t: seq<(nat, T)>, f: ((nat, T)) -> real)
    requires LexCrescente(t, f)
    requires forall b :: 0 <= b < |t| ==> f(h) < f(t[b]) || (f(h) == f(t[b]) && h.0 < t[b].0)
    ensures LexCrescente([h] + t, f)
  {
    var o := [h] + t;
    forall a, b | 0 <= a < b < |o| ensures f(o[a]) < f(o[b]) || (f(o[a]) == f(o[b]) && o[a].0 < o[b].0) {
      assert o[b] == t[b - 1];
      if a > 0 {
        assert o[a] == t[a - 1];
      }
    }
  }

  lemma {:induction false} InserirLex<T>(x: (nat, T), r: seq<(nat, T)>, f: ((nat, T)) -> real)
    requires Ordenada(r, f) && LexCrescente(r, f)
    requires forall b :: 0 <= b < |r| ==> x.0 < r[b].0
    ensures LexCrescente(Inserir(x, r, f), f)
  {
    if r == [] || f(x) <= f(r[0]) {
      forall b | 0 <= b < |r| ensures f(x) < f(r[b]) || (f(x) == f(r[b]) && x.0 < r[b].0) {
        assert f(r[0]) <= f(r[b]);
      }
      LexCons(x, r, f);
    } else {
      var t := r[1..];
      var o' := Inserir(x, t, f);
      assert Ordenada(t, f) && LexCrescente(t, f);
      InserirLex(x, t, f);
      forall b | 0 <= b < |o'|
        ensures f(r[0]) < f(o'[b]) || (f(r[0]) == f(o'[b]) && r[0].0 < o'[b].0)
      {
        assert o'[b] in multiset(o');
        if o'[b] != x {
          assert o'[b] in multiset(t);
          var c :| 0 <= c < |t| && t[c] == o'[b];
          assert r[c + 1] == t[c];
        }
      }
      LexCons(r[0], o', f);
    }
  }

  /**
   * Sorting pairs tagged in increasing order stably by key orders them by
   * (key, tag): among equal keys the earlier tag comes first.
   */
  lemma {:induction false} OrdenacaoLex<T>(s: seq<(nat, T)>, f: ((nat, T)) -> real)
    requires forall a, b :: 0 <= a < b < |s| ==> s[a].0 < s[b].0
    ensures LexCrescente(OrdenarPor(s, f), f)
  {
    if s != [] {
      var r := OrdenarPor(s[1..], f);
      OrdenacaoLex(s[1..], f);
      forall b | 0 <= b < |r| ensures s[0].0 < r[b].0 {
        assert r[b] in multiset(s[1..]);
      }
      InserirLex(s[0], r, f);
    }
  }
}
