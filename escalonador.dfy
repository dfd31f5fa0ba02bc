/**
 * The scheduler (`EscalonadorCAV` and its eleven subclasses in
 * base_escalonador.py): the task list, the simulated clock, the overhead
 * counter, the shortest-task tracker, the two averaging metrics, and the
 * `escalonar` loops over a ready queue.
 */
module Escalonadores {
  import opened Wrappers
  import opened Tarefas
  import opened Ordenacao
  import opened Selecao
  import opened Rajadas
  import opened Sequenciais

  /** Which `escalonar` the scheduler runs. */
  datatype Politica =
    | FIFO
    | SJF
    | PrioridadeNP
    | RoundRobin
    | EDF
    | PrioridadeP
    | UG
    | FutureVision(estimador: Estimador)
  {
    /** The policies that run time slices and reinsert unfinished tasks. */
    predicate ComQuantum() { !(FIFO? || SJF? || PrioridadeNP?) }
    /** The policies that compare deadlines. */
    predicate ExigeDeadline() { EDF? || UG? }
  }

  /** The default `urg_max` of UG's `escalonar`. */
  const URG_MAX_PADRAO: real := 0.5

  function ChegadaDe(t: Tarefa): real { t.tempoChegada }

  predicate Distintas(ts: seq<Tarefa>) {
    forall i, j :: 0 <= i < j < |ts| ==> ts[i] != ts[j]
  }

  function Retratos(ts: seq<Tarefa>): (vs: seq<Vista>)
    reads ts
    ensures |vs| == |ts|
    ensures forall i :: 0 <= i < |ts| ==> vs[i] == ts[i].Retrato()
  {
    if ts == [] then [] else Retratos(ts[..|ts| - 1]) + [ts[|ts| - 1].Retrato()]
  }

  /** `math.ceil`. */
  function Teto(x: real): (c: int)
    ensures x <= c as real < x + 1.0
  {
    -((-x).Floor)
  }

  // ---------------------------------------------------------------------
  // The ready queue

  /** `[t for t in fila if t.tempo_chegada <= relogio]`. */
  function Chegaram(fila: seq<Tarefa>, relogio: real): (c: seq<Tarefa>)
    ensures forall i :: 0 <= i < |c| ==> c[i] in fila && c[i].tempoChegada <= relogio
  {
    if fila == [] then []
    else (if fila[0].tempoChegada <= relogio then [fila[0]] else []) + Chegaram(fila[1..], relogio)
  }

  /** `fila.remove(t)`: drops the first occurrence of `t`. */
  function Remover(fila: seq<Tarefa>, t: Tarefa): (r: seq<Tarefa>)
    ensures t in fila ==> multiset(r) == multiset(fila) - multiset{t}
    ensures t !in fila ==> r == fila
  {
    if fila == [] then []
    else if fila[0] == t then
      assert fila == [fila[0]] + fila[1..];
      fila[1..]
    else
      assert fila == [fila[0]] + fila[1..];
      assert multiset(fila) == multiset{fila[0]} + multiset(fila[1..]);
      assert t in fila ==> t in fila[1..];
      [fila[0]] + Remover(fila[1..], t)
  }

  /** Removing a queued task cuts out exactly its first occurrence and keeps the rest in order. */
  lemma RemoverPrimeira(fila: seq<Tarefa>, t: Tarefa) returns (i: nat)
    requires t in fila
    ensures i < |fila| && fila[i] == t && forall k :: 0 <= k < i ==> fila[k] != t
    ensures Remover(fila, t) == fila[..i] + fila[i + 1..]
  {
    i := Posicao(fila, t);
    PosicaoPrimeira(fila, t);
    RemoverEm(fila, t, i);
  }

  /** No occurrence of `t` comes before `Posicao(ts, t)`. */
  lemma {:induction false} PosicaoPrimeira(ts: seq<Tarefa>, t: Tarefa)
    ensures forall k :: 0 <= k < Posicao(ts, t) ==> ts[k] != t
  {
    if ts != [] && ts[0] != t {
      PosicaoPrimeira(ts[1..], t);
      assert forall k :: 1 <= k < Posicao(ts, t) ==> ts[k] == ts[1..][k - 1];
    }
  }

  /** `Remover` on the first occurrence `fila[i]` of `t`. */
  lemma {:induction false} RemoverEm(fila: seq<Tarefa>, t: Tarefa, i: nat)
    requires i < |fila| && fila[i] == t && forall k :: 0 <= k < i ==> fila[k] != t
    ensures Remover(fila, t) == fila[..i] + fila[i + 1..]
  {
    if i == 0 {
      assert fila[..0] + fila[1..] == fila[1..];
    } else {
      assert fila[0] != t;
      RemoverEm(fila[1..], t, i - 1);
      SemCabeca(fila, i);
    }
  }

  /** Cutting out `s[i]`, for `i > 0`, keeps the head in front of the tail with its element cut out. */
  lemma SemCabeca<T>(s: seq<T>, i: nat)
    requires 0 < i < |s|
    ensures s[..i] + s[i + 1..] == [s[0]] + (s[1..][..i - 1] + s[1..][i..])
  {
    assert s[..i] == [s[0]] + s[1..][..i - 1];
    assert s[i + 1..] == s[1..][i..];
  }

  /** Filtering the arrived tasks commutes with splitting the queue. */
  lemma {:induction false} ChegaramConcatena(a: seq<Tarefa>, b: seq<Tarefa>, relogio: real)
    ensures Chegaram(a + b, relogio) == Chegaram(a, relogio) + Chegaram(b, relogio)
  {
    if a == [] {
      assert a + b == b;
    } else {
      assert (a + b)[0] == a[0] && (a + b)[1..] == a[1..] + b;
      ChegaramConcatena(a[1..], b, relogio);
    }
  }

  /** The arrived tasks keep their queue order: of two arrived entries, the earlier one comes first. */
  lemma ChegaramOrdem(fila: seq<Tarefa>, relogio: real, i: nat, j: nat) returns (a: nat, b: nat)
    requires i < j < |fila|
    requires fila[i].tempoChegada <= relogio && fila[j].tempoChegada <= relogio
    ensures a < b < |Chegaram(fila, relogio)|
    ensures Chegaram(fila, relogio)[a] == fila[i] && Chegaram(fila, relogio)[b] == fila[j]
  {
    var antes, depois := fila[..j], fila[j..];
    assert fila == antes + depois;
    ChegaramConcatena(antes, depois, relogio);
    assert antes[i] == fila[i];
    a := ChegaramIndice(antes, relogio, i);
    b := |Chegaram(antes, relogio)|;
    assert depois == [fila[j]] + depois[1..];
    ChegaramConcatena([fila[j]], depois[1..], relogio);
  }

  /** Where an arrived entry of the queue sits among the arrived tasks. */
  lemma {:induction false} ChegaramIndice(fila: seq<Tarefa>, relogio: real, i: nat) returns (a: nat)
    requires i < |fila| && fila[i].tempoChegada <= relogio
    ensures a < |Chegaram(fila, relogio)| && Chegaram(fila, relogio)[a] == fila[i]
  {
    var resto := Chegaram(fila[1..], relogio);
    if i == 0 {
      assert Chegaram(fila, relogio) == [fila[0]] + resto;
      a := 0;
    } else {
      assert fila[1..][i - 1] == fila[i];
      var k := ChegaramIndice(fila[1..], relogio, i - 1);
      if fila[0].tempoChegada <= relogio {
        assert Chegaram(fila, relogio) == [fila[0]] + resto;
        a := k + 1;
      } else {
        assert Chegaram(fila, relogio) == resto;
        a := k;
      }
    }
  }

  /** The head of the arrived tasks is the first queued entry that has arrived. */
  lemma {:induction false} ChegaramPrimeira(fila: seq<Tarefa>, relogio: real) returns (i: nat)
    requires Chegaram(fila, relogio) != []
    ensures i < |fila| && Chegaram(fila, relogio)[0] == fila[i] && fila[i].tempoChegada <= relogio
    ensures forall j :: 0 <= j < i ==> fila[j].tempoChegada > relogio
  {
    if fila[0].tempoChegada <= relogio {
      i := 0;
    } else {
      var k := ChegaramPrimeira(fila[1..], relogio);
      i := k + 1;
    }
  }

  /** Position of the first queued task that arrives after `relogio`, or |fila| if none does. */
  function PrimeiraChegadaApos(fila: seq<Tarefa>, relogio: real): (i: nat)
    ensures i <= |fila|
    ensures forall j :: 0 <= j < i ==> fila[j].tempoChegada <= relogio
    ensures i < |fila| ==> fila[i].tempoChegada > relogio
  {
    if fila == [] || fila[0].tempoChegada > relogio then 0
    else 1 + PrimeiraChegadaApos(fila[1..], relogio)
  }

  lemma {:induction false} PrimeiraChegadaAposUnica(fila: seq<Tarefa>, relogio: real, i: nat)
    requires i <= |fila|
    requires forall j :: 0 <= j < i ==> fila[j].tempoChegada <= relogio
    requires i < |fila| ==> fila[i].tempoChegada > relogio
    ensures PrimeiraChegadaApos(fila, relogio) == i
  {
    if i > 0 {
      PrimeiraChegadaAposUnica(fila[1..], relogio, i - 1);
    }
  }

  /**
   * Where a preempted task goes back: just before the first queued task
   * that arrives after `relogio`, or at the end when there is none.
   */
  function Reinsercao(fila: seq<Tarefa>, t: Tarefa, relogio: real): (r: seq<Tarefa>)
    ensures multiset(r) == multiset(fila) + multiset{t}
  {
    var i := PrimeiraChegadaApos(fila, relogio);
    assert fila == fila[..i] + fila[i..];
    fila[..i] + [t] + fila[i..]
  }

  /**
   * The reinsertion loop of the quantum schedulers: scan the queue for the
   * first task arriving after the clock and insert in front of it, or
   * append after the last position.
   */
  method Reinserir(fila: seq<Tarefa>, tarefa: Tarefa, relogio: real) returns (nova: seq<Tarefa>)
    ensures nova == Reinsercao(fila, tarefa, relogio)
  {
    if fila == [] {
      return [tarefa];
    }
    nova := fila;
    var i := 0;
    while i < |fila|
      invariant 0 <= i <= |fila|
      invariant forall j :: 0 <= j < i ==> fila[j].tempoChegada <= relogio
      invariant nova == if i == |fila| then fila + [tarefa] else fila
    {
      if fila[i].tempoChegada > relogio {
        nova := fila[..i] + [tarefa] + fila[i..];
        break;
      }
      if i == |fila| - 1 {
        nova := fila + [tarefa];
      }
      i := i + 1;
    }
    assert i == |fila| ==> fila[..i] == fila && fila[i..] == [];
    PrimeiraChegadaAposUnica(fila, relogio, i);
  }

  lemma {:induction false} DistintasContagem(s: seq<Tarefa>)
    ensures Distintas(s) <==> forall x :: multiset(s)[x] <= 1
  {
    if s != [] {
      var r := s[1..];
      assert s == [s[0]] + r;
      assert multiset(s) == multiset{s[0]} + multiset(r);
      DistintasContagem(r);
      if Distintas(s) {
        assert Distintas(r) by {
          forall i, j | 0 <= i < j < |r| ensures r[i] != r[j] {
            assert r[i] == s[i + 1] && r[j] == s[j + 1];
          }
        }
        assert s[0] !in multiset(r) by {
          forall k | 0 <= k < |r| ensures r[k] != s[0] {
            assert r[k] == s[k + 1];
          }
        }
      } else {
        ContagemRepetida(s);
      }
    }
  }

  /** A task that appears twice is counted at least twice. */
  lemma ContagemRepetida(s: seq<Tarefa>)
    requires !Distintas(s)
    ensures exists x :: multiset(s)[x] > 1
  {
    var i, j :| 0 <= i < j < |s| && s[i] == s[j];
    assert s == s[..j] + s[j..];
    assert s[i] in multiset(s[..j]) && s[j] in multiset(s[j..]);
    assert multiset(s)[s[i]] == multiset(s[..j])[s[i]] + multiset(s[j..])[s[i]];
  }

  /** A rearrangement of distinct tasks is distinct. */
  lemma DistintasPermutacao(a: seq<Tarefa>, b: seq<Tarefa>)
    requires multiset(a) == multiset(b) && Distintas(a)
    ensures Distintas(b)
  {
    DistintasContagem(a);
    DistintasContagem(b);
  }

  lemma {:induction false} ChegaramDistintas(fila: seq<Tarefa>, relogio: real)
    requires Distintas(fila)
    ensures Distintas(Chegaram(fila, relogio))
  {
    if fila != [] {
      assert Distintas(fila[1..]);
      ChegaramDistintas(fila[1..], relogio);
    }
  }

  /** Removing a task from a queue of distinct tasks leaves it out entirely. */
  lemma RemoverDistintas(fila: seq<Tarefa>, t: Tarefa)
    requires Distintas(fila) && t in fila
    ensures Distintas(Remover(fila, t)) && t !in Remover(fila, t)
  {
    DistintasContagem(fila);
    DistintasContagem(Remover(fila, t));
  }

  lemma ReinsercaoDistintas(fila: seq<Tarefa>, t: Tarefa, relogio: real)
    requires Distintas(fila) && t !in fila
    ensures Distintas(Reinsercao(fila, t, relogio))
  {
    DistintasContagem(fila);
    DistintasContagem(Reinsercao(fila, t, relogio));
  }

  // ---------------------------------------------------------------------
  // Measures over the tasks

  /** Bursts after which overhead was charged: all but the finishing one. */
  function NaoFinaisDe(v: Vista): int {
    |v.bursts| - (if v.final.Some? then 1 else 0)
  }

  function NaoFinais(vs: seq<Vista>): int {
    if vs == [] then 0 else NaoFinais(vs[..|vs| - 1]) + NaoFinaisDe(vs[|vs| - 1])
  }

  lemma {:induction false} NaoFinaisAtualizada(vs: seq<Vista>, i: nat, v: Vista)
    requires i < |vs|
    ensures NaoFinais(vs[i := v]) == NaoFinais(vs) - NaoFinaisDe(vs[i]) + NaoFinaisDe(v)
  {
    var n := |vs| - 1;
    if i < n {
      NaoFinaisAtualizada(vs[..n], i, v);
      assert vs[i := v][..n] == vs[..n][i := v];
    } else {
      assert vs[i := v][..n] == vs[..n];
    }
  }

  lemma {:induction false} NaoFinaisNulos(vs: seq<Vista>)
    requires forall i :: 0 <= i < |vs| ==> vs[i].bursts == [] && vs[i].final.None?
    ensures NaoFinais(vs) == 0
  {
    if vs != [] {
      NaoFinaisNulos(vs[..|vs| - 1]);
    }
  }

  /**
   * An upper bound on the dispatches a queued task can still take with
   * slices of at least `q`.
   */
  function Peso(restante: real, q: real): nat {
    var f := if q > 0.0 then (restante / q).Floor else 0;
    if restante > 0.0 && f >= 0 then f + 2 else 1
  }

  lemma PesoDecresce(antes: real, depois: real, q: real)
    requires q > 0.0 && depois > 0.0 && depois <= antes - q
    ensures Peso(depois, q) < Peso(antes, q)
  {
    var a, d := antes / q, depois / q;
    assert d * q == depois && a * q == antes;
    assert (a - 1.0) * q == antes - q;
    Monotona(d, a - 1.0, q);
    Monotona(0.0, d, q);
    assert d.Floor >= 0 && a.Floor >= 0;
    assert d.Floor <= a.Floor - 1;
  }

  /** Multiplying by a positive factor keeps the order. */
  lemma Monotona(x: real, y: real, q: real)
    requires q > 0.0
    ensures x * q <= y * q <==> x <= y
    ensures x * q < y * q <==> x < y
  {
  }

  /** The weight of a task in the termination measure: nothing once it has left the queue. */
  function PesoNaFila(v: Vista, t: Tarefa, fila: seq<Tarefa>, q: real): nat {
    if t in fila then Peso(v.restante, q) else 0
  }

  /** The dispatches the queued tasks can still take, summed over the scheduler's task list. */
  function Pendencia(vs: seq<Vista>, ts: seq<Tarefa>, fila: seq<Tarefa>, q: real): nat
    requires |vs| == |ts|
  {
    if vs == [] then 0
    else
      var n := |vs| - 1;
      Pendencia(vs[..n], ts[..n], fila, q) + PesoNaFila(vs[n], ts[n], fila, q)
  }

  /** Lowering one weight and raising none lowers the measure. */
  lemma {:induction false} PendenciaDecresce(vs: seq<Vista>, ws: seq<Vista>, ts: seq<Tarefa>,
                                             fila: seq<Tarefa>, nova: seq<Tarefa>, q: real, i: nat)
    requires |vs| == |ws| == |ts| && i < |ts|
    requires forall j :: 0 <= j < |ts| ==> PesoNaFila(ws[j], ts[j], nova, q) <= PesoNaFila(vs[j], ts[j], fila, q)
    requires PesoNaFila(ws[i], ts[i], nova, q) < PesoNaFila(vs[i], ts[i], fila, q)
    ensures Pendencia(ws, ts, nova, q) < Pendencia(vs, ts, fila, q)
  {
    var n := |vs| - 1;
    if i < n {
      PendenciaDecresce(vs[..n], ws[..n], ts[..n], fila, nova, q, i);
    } else {
      PendenciaNaoCresce(vs[..n], ws[..n], ts[..n], fila, nova, q);
    }
  }

  lemma {:induction false} PendenciaNaoCresce(vs: seq<Vista>, ws: seq<Vista>, ts: seq<Tarefa>,
                                              fila: seq<Tarefa>, nova: seq<Tarefa>, q: real)
    requires |vs| == |ws| == |ts|
    requires forall j :: 0 <= j < |ts| ==> PesoNaFila(ws[j], ts[j], nova, q) <= PesoNaFila(vs[j], ts[j], fila, q)
    ensures Pendencia(ws, ts, nova, q) <= Pendencia(vs, ts, fila, q)
  {
    if vs != [] {
      var n := |vs| - 1;
      PendenciaNaoCresce(vs[..n], ws[..n], ts[..n], fila, nova, q);
    }
  }

  function MaiorChegadaDe(ts: seq<Tarefa>): (m: real)
    requires ts != []
    ensures forall i :: 0 <= i < |ts| ==> ts[i].tempoChegada <= m
  {
    if |ts| == 1 then ts[0].tempoChegada
    else
      var m := MaiorChegadaDe(ts[1..]);
      if ts[0].tempoChegada > m then ts[0].tempoChegada else m
  }

  /** How many idle jumps can still happen before the clock passes the last arrival. */
  function Ociosidade(relogio: real, horizonte: real): nat {
    var f := (horizonte - relogio).Floor;
    if relogio <= horizonte && f >= 0 then f + 1 else 0
  }

  /** Jumping the clock forward by at least one unit, while it is before the horizon, lowers the idle measure. */
  lemma OciosidadeDecresce(relogio: real, depois: real, horizonte: real)
    requires relogio <= horizonte && depois >= relogio + 1.0
    ensures Ociosidade(depois, horizonte) < Ociosidade(relogio, horizonte)
  {
    if depois <= horizonte {
      assert (horizonte - depois).Floor <= (horizonte - relogio - 1.0).Floor;
    }
  }

  // ---------------------------------------------------------------------
  // Selection among the arrived tasks

  /** The task a quantum scheduler runs next, as an index into the arrived tasks. */
  function Escolha(p: Politica, vs: seq<Vista>, relogio: real): (k: nat)
    requires |vs| > 0 && p.ComQuantum()
    requires p.EDF? ==> ComDeadlines(vs)
    ensures k < |vs|
  {
    match p
    case RoundRobin => 0
    case EDF => SelecaoEDF(vs)
    case PrioridadeP => SelecaoPrioridadeP(vs)
    case UG => SelecaoPrioridadeP(vs)
    case FutureVision(e) => SelecaoFV(e, vs, relogio)
  }

  /**
   * The loop state of a quantum scheduler as values: the queue, the
   * snapshots of the task list, the clock, the overhead counter and UG's
   * current slice.
   */
  datatype EstadoQ = EstadoQ(fila: seq<Tarefa>, vs: seq<Vista>, relogio: real, sobrecarga: real, atual: real)

  /** The snapshots, out of `vs`, of the tasks `c` of the list `ts`. */
  function VistasDe(c: seq<Tarefa>, ts: seq<Tarefa>, vs: seq<Vista>): (r: seq<Vista>)
    requires |vs| == |ts| && forall j :: 0 <= j < |c| ==> c[j] in ts
    ensures |r| == |c|
    ensures forall j :: 0 <= j < |c| ==> r[j] == vs[Posicao(ts, c[j])]
  {
    seq(|c|, j requires 0 <= j < |c| => vs[Posicao(ts, c[j])])
  }

  /** A queue made of the tasks of `fila` and `t`, all of the list `ts`, holds only tasks of `ts`. */
  lemma ContidaApos(fila: seq<Tarefa>, nova: seq<Tarefa>, ts: seq<Tarefa>, t: Tarefa)
    requires multiset(nova) <= multiset(fila) + multiset{t}
    requires t in ts && forall j :: 0 <= j < |fila| ==> fila[j] in ts
    ensures forall j :: 0 <= j < |nova| ==> nova[j] in ts
  {
    forall j | 0 <= j < |nova|
      ensures nova[j] in ts
    {
      assert nova[j] in multiset(nova);
      assert nova[j] == t || nova[j] in multiset(fila);
    }
  }

  /**
   * When `vs` are the snapshots of `ts` and the queue holds tasks of `ts`,
   * so do the arrived ones, and their snapshots are taken out of `vs`.
   */
  lemma ChegadasConhecidas(fila: seq<Tarefa>, ts: seq<Tarefa>, vs: seq<Vista>, relogio: real)
    requires |vs| == |ts| && forall j :: 0 <= j < |ts| ==> vs[j] == ts[j].Retrato()
    requires forall j :: 0 <= j < |fila| ==> fila[j] in ts
    ensures var c := Chegaram(fila, relogio);
      && (forall j :: 0 <= j < |c| ==> c[j] in ts)
      && Retratos(c) == VistasDe(c, ts, vs)
      && (ComDeadlines(vs) ==> forall j :: 0 <= j < |c| ==> c[j].deadline.Some?)
  {
    var c := Chegaram(fila, relogio);
    assert forall j :: 0 <= j < |c| ==> c[j] in ts;
    assert Retratos(c) == VistasDe(c, ts, vs);
  }

  predicate FilaVazia(e: EstadoQ) { e.fila == [] }

  /** Every snapshot is consistent and done: finished, or never run for lack of work. */
  predicate Encerradas(ws: seq<Vista>) {
    forall j :: 0 <= j < |ws| ==> Consistente(ws[j]) && Encerrada(ws[j])
  }

  // ---------------------------------------------------------------------
  // Runs of a scheduler's loop

  /** The state after `n` iterations of `passo` from `e`, the loop stopping once `parado` holds. */
  function Iterar<S>(e: S, passo: S -> S, parado: S -> bool, n: nat): S {
    if n == 0 then e
    else
      var p := Iterar(e, passo, parado, n - 1);
      if parado(p) then p else passo(p)
  }

  /** Once the loop has stopped it stays put. */
  lemma {:induction false} IterarEstavel<S>(e: S, passo: S -> S, parado: S -> bool, n: nat, m: nat)
    requires n <= m && parado(Iterar(e, passo, parado, n))
    ensures Iterar(e, passo, parado, m) == Iterar(e, passo, parado, n)
    decreases m - n
  {
    if m > n {
      IterarEstavel(e, passo, parado, n, m - 1);
    }
  }

  /** The loop run from `e` stops, after some number of iterations, in the state `f`. */
  ghost predicate Termina<S>(e: S, passo: S -> S, parado: S -> bool, f: S) {
    exists n: nat :: Iterar(e, passo, parado, n) == f && parado(f)
  }

  /** A state where the loop stops, reached after `n` iterations, is its final state. */
  lemma TerminaEm<S>(e: S, passo: S -> S, parado: S -> bool, n: nat, f: S)
    requires Iterar(e, passo, parado, n) == f && parado(f)
    ensures Termina(e, passo, parado, f)
  {
  }

  /** A run has at most one final state. */
  lemma FinalUnico<S>(e: S, passo: S -> S, parado: S -> bool, f: S, g: S)
    requires Termina(e, passo, parado, f) && Termina(e, passo, parado, g)
    ensures f == g
  {
    var n: nat :| Iterar(e, passo, parado, n) == f && parado(f);
    var m: nat :| Iterar(e, passo, parado, m) == g && parado(g);
    if n <= m {
      IterarEstavel(e, passo, parado, n, m);
    } else {
      IterarEstavel(e, passo, parado, m, n);
    }
  }

  // ---------------------------------------------------------------------
  // Metrics

  function Soma(xs: seq<real>): real {
    if xs == [] then 0.0 else Soma(xs[..|xs| - 1]) + xs[|xs| - 1]
  }

  /** The mean of `xs`, or None for an empty list. */
  function MediaDe(xs: seq<real>): Option<real> {
    if xs == [] then None else Some(Soma(xs) / (|xs| as real))
  }

  /** `tempo_final - tempo_chegada` of every finished task, in list order. */
  function Turnarounds(vs: seq<Vista>): seq<real> {
    if vs == [] then []
    else
      var v := vs[|vs| - 1];
      Turnarounds(vs[..|vs| - 1]) + (if v.final.Some? then [v.final.value - v.chegada] else [])
  }

  /** `tempo_final - tempo_chegada - duracao` of every finished task, in list order. */
  function Esperas(vs: seq<Vista>): seq<real> {
    if vs == [] then []
    else
      var v := vs[|vs| - 1];
      Esperas(vs[..|vs| - 1]) + (if v.final.Some? then [v.final.value - v.chegada - v.duracao] else [])
  }

  /** `duracao` of every finished task, in list order. */
  function DuracoesConcluidas(vs: seq<Vista>): seq<real> {
    if vs == [] then []
    else
      var v := vs[|vs| - 1];
      DuracoesConcluidas(vs[..|vs| - 1]) + (if v.final.Some? then [v.duracao] else [])
  }

  lemma {:induction false} SomaEsperas(vs: seq<Vista>)
    ensures |Esperas(vs)| == |Turnarounds(vs)| == |DuracoesConcluidas(vs)|
    ensures Soma(Esperas(vs)) == Soma(Turnarounds(vs)) - Soma(DuracoesConcluidas(vs))
  {
    if vs != [] {
      var p := vs[..|vs| - 1];
      SomaEsperas(p);
      var v := vs[|vs| - 1];
      if v.final.Some? {
        var e, t, d := Esperas(vs), Turnarounds(vs), DuracoesConcluidas(vs);
        assert e == Esperas(p) + [v.final.value - v.chegada - v.duracao];
        assert t == Turnarounds(p) + [v.final.value - v.chegada];
        assert d == DuracoesConcluidas(p) + [v.duracao];
        assert e[..|e| - 1] == Esperas(p) && t[..|t| - 1] == Turnarounds(p) && d[..|d| - 1] == DuracoesConcluidas(p);
        assert Soma(e) == Soma(Esperas(p)) + (v.final.value - v.chegada - v.duracao);
      } else {
        assert Esperas(vs) == Esperas(p) && Turnarounds(vs) == Turnarounds(p);
        assert DuracoesConcluidas(vs) == DuracoesConcluidas(p);
      }
    }
  }

  /**
   * The mean wait is the mean turnaround minus the mean duration of the
   * finished tasks, and both means exist for exactly the same task lists.
   */
  lemma EsperaMediaPorTurnaround(vs: seq<Vista>)
    ensures MediaDe(Esperas(vs)).Some? <==> MediaDe(Turnarounds(vs)).Some?
    ensures MediaDe(Esperas(vs)).Some? <==> MediaDe(DuracoesConcluidas(vs)).Some?
    ensures MediaDe(Esperas(vs)).Some? ==>
      MediaDe(Esperas(vs)).value == MediaDe(Turnarounds(vs)).value - MediaDe(DuracoesConcluidas(vs)).value
  {
    SomaEsperas(vs);
    if Esperas(vs) != [] {
      DivisaoDaDiferenca(Soma(Turnarounds(vs)), Soma(DuracoesConcluidas(vs)), |Esperas(vs)| as real);
    }
  }

  lemma DivisaoDaDiferenca(a: real, b: real, n: real)
    requires n > 0.0
    ensures (a - b) / n == a / n - b / n
  {
  }

  lemma {:induction false} SomaNaoNegativa(xs: seq<real>)
    requires forall i :: 0 <= i < |xs| ==> xs[i] >= 0.0
    ensures Soma(xs) >= 0.0
  {
    if xs != [] {
      SomaNaoNegativa(xs[..|xs| - 1]);
    }
  }

  lemma {:induction false} EsperasNaoNegativas(vs: seq<Vista>)
    requires forall i :: 0 <= i < |vs| ==> Consistente(vs[i])
    ensures forall i :: 0 <= i < |Esperas(vs)| ==> Esperas(vs)[i] >= 0.0
  {
    if vs != [] {
      var p := vs[..|vs| - 1];
      EsperasNaoNegativas(p);
      var v := vs[|vs| - 1];
      if v.final.Some? {
        Concluida(v);
      }
      assert Esperas(vs)[..|Esperas(p)|] == Esperas(p);
    }
  }

  /**
   * Under the quantum schedulers no finished task waited a negative time,
   * so the mean wait is never negative.
   */
  lemma EsperaMediaNaoNegativa(vs: seq<Vista>)
    requires forall i :: 0 <= i < |vs| ==> Consistente(vs[i])
    ensures MediaDe(Esperas(vs)).Some? ==> MediaDe(Esperas(vs)).value >= 0.0
  {
    EsperasNaoNegativas(vs);
    SomaNaoNegativa(Esperas(vs));
    if Esperas(vs) != [] {
      QuocienteNaoNegativo(Soma(Esperas(vs)), |Esperas(vs)| as real);
    }
  }

  lemma QuocienteNaoNegativo(s: real, n: real)
    requires s >= 0.0 && n > 0.0
    ensures s / n >= 0.0
  {
  }

  /** The end state of a task under a quantum scheduler: finished, or never run for lack of work. */
  predicate Encerrada(v: Vista) {
    v.final.Some? || (v.bursts == [] && v.restante <= 0.0)
  }

  /**
   * What holds of one task between two iterations of a quantum scheduler:
   * it is consistent, it is done unless it is still queued, a queued task
   * has time left or never ran, the clock `relogio` is past its bursts,
   * and it has a deadline when the policy reads deadlines.
   */
  predicate TarefaValida(v: Vista, naFila: bool, relogio: real, exigeDeadline: bool) {
    && Consistente(v)
    && (naFila || Encerrada(v))
    && (naFila ==> v.restante > 0.0 || v.bursts == [])
    && (v.bursts == [] || Ultima(v.bursts).fim <= relogio)
    && (exigeDeadline ==> v.deadline.Some?)
  }

  /**
   * What holds between two iterations of a quantum scheduler, over the
   * snapshots `vs` of the tasks `ts`, the queue `fila`, the clock, the
   * overhead counter (`base` before the run) and the slices: the queue
   * holds distinct tasks of the list, every task is valid, and the
   * overhead is 0.3 per burst that left work behind.
   */
  ghost predicate InvarianteV(vs: seq<Vista>, ts: seq<Tarefa>, fila: seq<Tarefa>, relogio: real,
                              sobrecarga: real, base: real, q: real, atual: real, exigeDeadline: bool)
  {
    && |vs| == |ts| && q > 0.0 && atual >= q
    && Distintas(ts) && Distintas(fila) && multiset(fila) <= multiset(ts)
    && (forall j :: 0 <= j < |vs| ==> TarefaValida(vs[j], ts[j] in fila, relogio, exigeDeadline))
    && sobrecarga == base + SOBRECARGA * NaoFinais(vs) as real
  }

  /**
   * The queue after serving `t`: `t` is back in it exactly when it was
   * left unfinished, and no other task enters or leaves.
   */
  lemma FilaAposAtendimento(fila: seq<Tarefa>, t: Tarefa, relogio: real, fim: bool, nova: seq<Tarefa>)
    requires Distintas(fila) && t in fila
    requires nova == if fim then Remover(fila, t) else Reinsercao(Remover(fila, t), t, relogio)
    ensures Distintas(nova) && multiset(nova) <= multiset(fila)
    ensures t in nova <==> !fim
    ensures forall x :: x != t ==> (x in nova <==> x in fila)
  {
    RemoverDistintas(fila, t);
    if !fim {
      ReinsercaoDistintas(Remover(fila, t), t, relogio);
    }
    forall x | x != t
      ensures x in nova <==> x in fila
    {
      assert multiset(nova)[x] == multiset(fila)[x];
    }
  }

  /** Task `i` becomes `w`, the clock moves forward, and only task `i` may enter or leave the queue. */
  lemma {:induction false} ValidasAposAtendimento(vs: seq<Vista>, ts: seq<Tarefa>, fila: seq<Tarefa>,
                                                  nova: seq<Tarefa>, i: nat, w: Vista,
                                                  relogio: real, relogio2: real, exigeDeadline: bool)
    requires |vs| == |ts| && i < |ts| && Distintas(ts) && relogio <= relogio2
    requires forall j :: 0 <= j < |vs| ==> TarefaValida(vs[j], ts[j] in fila, relogio, exigeDeadline)
    requires forall x :: x != ts[i] ==> (x in nova <==> x in fila)
    requires TarefaValida(w, ts[i] in nova, relogio2, exigeDeadline)
    ensures forall j :: 0 <= j < |vs| ==> TarefaValida(vs[i := w][j], ts[j] in nova, relogio2, exigeDeadline)
  {
    forall j | 0 <= j < |vs| && j != i
      ensures TarefaValida(vs[j], ts[j] in nova, relogio2, exigeDeadline)
    {
      assert ts[j] != ts[i];
      assert TarefaValida(vs[j], ts[j] in fila, relogio, exigeDeadline);
    }
  }

  /** A member of a sub-multiset of `ts` is a member of `ts`. */
  lemma NaLista(fila: seq<Tarefa>, ts: seq<Tarefa>, x: Tarefa)
    requires multiset(fila) <= multiset(ts) && x in fila
    ensures x in ts
  {
    assert multiset(fila)[x] > 0;
  }

  /** Moving the clock forward keeps the invariant. */
  lemma RelogioAvanca(vs: seq<Vista>, ts: seq<Tarefa>, fila: seq<Tarefa>, relogio: real, relogio2: real,
                      sobrecarga: real, base: real, q: real, atual: real, exigeDeadline: bool)
    requires InvarianteV(vs, ts, fila, relogio, sobrecarga, base, q, atual, exigeDeadline)
    requires relogio <= relogio2
    ensures InvarianteV(vs, ts, fila, relogio2, sobrecarga, base, q, atual, exigeDeadline)
  {
    forall j | 0 <= j < |vs|
      ensures TarefaValida(vs[j], ts[j] in fila, relogio2, exigeDeadline)
    {
      assert TarefaValida(vs[j], ts[j] in fila, relogio, exigeDeadline);
    }
  }

  /** Dropping a queued task that has no time left keeps the invariant and lowers the measure. */
  lemma DescartePreserva(vs: seq<Vista>, ts: seq<Tarefa>, fila: seq<Tarefa>, nova: seq<Tarefa>,
                         relogio: real, sobrecarga: real, base: real, q: real, atual: real,
                         exigeDeadline: bool, i: nat)
    requires InvarianteV(vs, ts, fila, relogio, sobrecarga, base, q, atual, exigeDeadline)
    requires i < |ts| && ts[i] in fila && vs[i].restante <= 0.0
    requires nova == Remover(fila, ts[i])
    ensures InvarianteV(vs, ts, nova, relogio, sobrecarga, base, q, atual, exigeDeadline)
    ensures Pendencia(vs, ts, nova, q) < Pendencia(vs, ts, fila, q)
  {
    FilaAposAtendimento(fila, ts[i], relogio, true, nova);
    assert TarefaValida(vs[i], true, relogio, exigeDeadline);
    ValidasAposAtendimento(vs, ts, fila, nova, i, vs[i], relogio, relogio, exigeDeadline);
    assert vs[i := vs[i]] == vs;
    PesosAposAtendimento(vs, ts, fila, nova, q, i, vs[i]);
  }

  /** Only task `i` changes weight, and it loses weight. */
  lemma PesosAposAtendimento(vs: seq<Vista>, ts: seq<Tarefa>, fila: seq<Tarefa>, nova: seq<Tarefa>,
                             q: real, i: nat, w: Vista)
    requires |vs| == |ts| && i < |ts| && Distintas(ts) && ts[i] in fila
    requires forall x :: x != ts[i] ==> (x in nova <==> x in fila)
    requires PesoNaFila(w, ts[i], nova, q) < PesoNaFila(vs[i], ts[i], fila, q)
    ensures Pendencia(vs[i := w], ts, nova, q) < Pendencia(vs, ts, fila, q)
  {
    forall j | 0 <= j < |ts| && j != i
      ensures PesoNaFila(vs[i := w][j], ts[j], nova, q) == PesoNaFila(vs[j], ts[j], fila, q)
    {
      assert ts[j] != ts[i];
    }
    PendenciaDecresce(vs, vs[i := w], ts, fila, nova, q, i);
  }

  /**
   * One dispatch keeps the invariant and lowers the measure: task `i`
   * changes to its `Servida` snapshot with a slice of at least `q`, the
   * clock moves past it, 0.3 of overhead is added when it is left
   * unfinished, and the queue gets the task back exactly then.
   */
  lemma AtendimentoPreserva(vs: seq<Vista>, ts: seq<Tarefa>, fila: seq<Tarefa>, nova: seq<Tarefa>,
                            relogio: real, relogio2: real, sobrecarga: real, sobrecarga2: real,
                            base: real, q: real, atual: real, atual2: real, exigeDeadline: bool,
                            i: nat, fatia: real)
    requires InvarianteV(vs, ts, fila, relogio, sobrecarga, base, q, atual, exigeDeadline)
    requires i < |ts| && ts[i] in fila && vs[i].restante > 0.0 && fatia >= q && atual2 >= q
    requires var w := Servida(vs[i], relogio, fatia);
      && relogio2 == RelogioApos(vs[i], relogio, fatia)
      && sobrecarga2 == sobrecarga + (if w.restante > 0.0 then SOBRECARGA else 0.0)
      && nova == (if w.restante > 0.0 then Reinsercao(Remover(fila, ts[i]), ts[i], relogio2)
                  else Remover(fila, ts[i]))
    ensures var w := Servida(vs[i], relogio, fatia);
      && InvarianteV(vs[i := w], ts, nova, relogio2, sobrecarga2, base, q, atual2, exigeDeadline)
      && Pendencia(vs[i := w], ts, nova, q) < Pendencia(vs, ts, fila, q)
  {
    var v := vs[i];
    var w := Servida(v, relogio, fatia);
    var fim := w.final.Some?;
    assert TarefaValida(v, true, relogio, exigeDeadline);
    ServidaConsistente(v, relogio, fatia);
    if !fim {
      PesoDecresce(v.restante, w.restante, q);
    }
    TrocaPreserva(vs, ts, fila, nova, relogio, relogio2, sobrecarga, sobrecarga2, base, q, atual,
                  atual2, exigeDeadline, i, w, fim);
  }

  /** `AtendimentoPreserva`, stated only with the facts about the new snapshot `w` that it needs. */
  lemma TrocaPreserva(vs: seq<Vista>, ts: seq<Tarefa>, fila: seq<Tarefa>, nova: seq<Tarefa>,
                      relogio: real, relogio2: real, sobrecarga: real, sobrecarga2: real,
                      base: real, q: real, atual: real, atual2: real, exigeDeadline: bool,
                      i: nat, w: Vista, fim: bool)
    requires InvarianteV(vs, ts, fila, relogio, sobrecarga, base, q, atual, exigeDeadline)
    requires i < |ts| && ts[i] in fila && atual2 >= q && relogio <= relogio2
    requires TarefaValida(w, !fim, relogio2, exigeDeadline)
    requires NaoFinaisDe(w) == NaoFinaisDe(vs[i]) + (if fim then 0 else 1)
    requires !fim ==> Peso(w.restante, q) < Peso(vs[i].restante, q)
    requires sobrecarga2 == sobrecarga + (if fim then 0.0 else SOBRECARGA)
    requires nova == if fim then Remover(fila, ts[i]) else Reinsercao(Remover(fila, ts[i]), ts[i], relogio2)
    ensures InvarianteV(vs[i := w], ts, nova, relogio2, sobrecarga2, base, q, atual2, exigeDeadline)
    ensures Pendencia(vs[i := w], ts, nova, q) < Pendencia(vs, ts, fila, q)
  {
    FilaAposAtendimento(fila, ts[i], relogio2, fim, nova);
    ValidasAposAtendimento(vs, ts, fila, nova, i, w, relogio, relogio2, exigeDeadline);
    assert sobrecarga2 == base + SOBRECARGA * NaoFinais(vs[i := w]) as real by {
      NaoFinaisAtualizada(vs, i, w);
      var n := NaoFinais(vs);
      assert SOBRECARGA * (n + 1) as real == SOBRECARGA * n as real + SOBRECARGA;
    }
    PesosAposAtendimento(vs, ts, fila, nova, q, i, w);
    assert |vs[i := w]| == |ts|;
    assert Distintas(nova) && multiset(nova) <= multiset(ts);
    assert forall j :: 0 <= j < |vs| ==> TarefaValida(vs[i := w][j], ts[j] in nova, relogio2, exigeDeadline);
    assert InvarianteV(vs[i := w], ts, nova, relogio2, sobrecarga2, base, q, atual2, exigeDeadline);
  }

  // ---------------------------------------------------------------------
  // The scheduler

  /**
   * Before the first iteration: every task is as its constructor left it
   * and still queued, so the invariant holds with the overhead counter as
   * its own base.
   */
  lemma InicioValido(vs: seq<Vista>, ts: seq<Tarefa>, relogio: real, sobrecarga: real, q: real, atual: real,
                     exigeDeadline: bool)
    requires |vs| == |ts| && Distintas(ts) && q > 0.0 && atual >= q
    requires Iniciais(vs) && (exigeDeadline ==> forall j :: 0 <= j < |vs| ==> vs[j].deadline.Some?)
    ensures InvarianteV(vs, ts, ts, relogio, sobrecarga, sobrecarga, q, atual, exigeDeadline)
  {
    forall j | 0 <= j < |vs| ensures TarefaValida(vs[j], ts[j] in ts, relogio, exigeDeadline) {
      InicialConsistente(vs[j].chegada, vs[j].duracao, vs[j].prioridade, vs[j].deadline);
    }
    NaoFinaisNulos(vs);
  }

  /** A rearrangement holds the same tasks. */
  lemma MesmosElementos(a: seq<Tarefa>, b: seq<Tarefa>)
    requires multiset(a) == multiset(b)
    ensures |a| == |b|
    ensures forall j :: 0 <= j < |b| ==> b[j] in a
    ensures forall t :: t in a <==> t in b
  {
    assert |multiset(a)| == |multiset(b)|;
    forall t ensures t in a <==> t in b {
      assert t in a <==> t in multiset(a);
      assert t in b <==> t in multiset(b);
    }
  }

  /** Snapshots of tasks as their constructor left them. */
  predicate Iniciais(vs: seq<Vista>) {
    forall j :: 0 <= j < |vs| ==> vs[j] == Inicial(vs[j].chegada, vs[j].duracao, vs[j].prioridade, vs[j].deadline)
  }

  /** Every task has a deadline. */
  predicate ComPrazos(ts: seq<Tarefa>) {
    forall j :: 0 <= j < |ts| ==> ts[j].deadline.Some?
  }

  /**
   * The scheduler's invariant over its fields: UG's slice never drops
   * below the base quantum, and the shortest-task tracker is empty exactly
   * when there are no tasks, and otherwise holds one of the tasks with the
   * shortest duration.
   */
  predicate Valido(quantum: real, atual: real, menor: Option<Tarefa>, ts: seq<Tarefa>) {
    && atual >= quantum
    && (menor.None? <==> ts == [])
    && (menor.Some? ==>
          && menor.value in ts
          && forall i :: 0 <= i < |ts| ==> menor.value.duracao <= ts[i].duracao)
  }

  /** Rearranging the tasks keeps the invariant, their distinctness and their deadlines. */
  lemma Reordenacao(quantum: real, atual: real, menor: Option<Tarefa>, ts: seq<Tarefa>, us: seq<Tarefa>)
    requires multiset(ts) == multiset(us)
    ensures |us| == |ts| && forall j :: 0 <= j < |us| ==> us[j] in ts
    ensures Valido(quantum, atual, menor, ts) ==> Valido(quantum, atual, menor, us)
    ensures Distintas(ts) ==> Distintas(us)
    ensures ComPrazos(ts) ==> ComPrazos(us)
  {
    MesmosElementos(ts, us);
    if Distintas(ts) {
      DistintasPermutacao(ts, us);
    }
    if ComPrazos(ts) {
      forall j | 0 <= j < |us| ensures us[j].deadline.Some? {
        var k :| 0 <= k < |ts| && ts[k] == us[j];
      }
    }
    if Valido(quantum, atual, menor, ts) && menor.Some? {
      forall j | 0 <= j < |us| ensures menor.value.duracao <= us[j].duracao {
        var k :| 0 <= k < |ts| && ts[k] == us[j];
      }
    }
  }

  /** Rearranged tasks that are all as their constructor left them have initial snapshots. */
  lemma NovasReordenadas(ts: seq<Tarefa>, us: seq<Tarefa>)
    requires multiset(ts) == multiset(us)
    requires forall j :: 0 <= j < |ts| ==> ts[j].Nova()
    ensures Iniciais(Retratos(us))
  {
    MesmosElementos(ts, us);
    forall j | 0 <= j < |us| ensures us[j].Nova() {
      var k :| 0 <= k < |ts| && ts[k] == us[j];
    }
  }

  // ---------------------------------------------------------------------
  // The run-to-completion schedulers (SJF and non-preemptive priority)

  /**
   * What holds of one task between two iterations of SJF or of
   * non-preemptive priority, against its state `v0` before the run: a
   * queued task is untouched, any other has been run to completion (exactly
   * once when `unica`).
   */
  predicate SequencialValida(v0: Vista, v: Vista, naFila: bool, unica: bool) {
    if naFila then v == v0
    else Reexecutada(v0, v) && (unica ==> |v.bursts| == |v0.bursts| + 1)
  }

  /**
   * What holds between two iterations of SJF or non-preemptive priority,
   * over the snapshots `v0s` before the run and `vs` now of the tasks `ts`
   * and the queue `fila`.
   */
  ghost predicate Sequencia(v0s: seq<Vista>, vs: seq<Vista>, ts: seq<Tarefa>, fila: seq<Tarefa>, unica: bool) {
    && |v0s| == |vs| == |ts|
    && Distintas(ts) && Distintas(fila) && multiset(fila) <= multiset(ts)
    && forall j :: 0 <= j < |ts| ==> SequencialValida(v0s[j], vs[j], ts[j] in fila, unica)
  }

  /** With nothing of the queue arrived yet, a one-unit idle jump brings the last arrival closer. */
  lemma EsperaDecresce(fila: seq<Tarefa>, ts: seq<Tarefa>, relogio: real, horizonte: real)
    requires fila != [] && multiset(fila) <= multiset(ts) && Chegaram(fila, relogio) == []
    requires ChegamAte(ts, horizonte)
    ensures Ociosidade(relogio + 1.0, horizonte) < Ociosidade(relogio, horizonte)
  {
    assert fila[0] !in Chegaram(fila, relogio);
    NaLista(fila, ts, fila[0]);
    OciosidadeDecresce(relogio, relogio + 1.0, horizonte);
  }

  /** Every task arrives by `horizonte`. */
  predicate ChegamAte(ts: seq<Tarefa>, horizonte: real) {
    forall j :: 0 <= j < |ts| ==> ts[j].tempoChegada <= horizonte
  }

  /** Every task lasts at least `passo` and arrives by `horizonte`. */
  predicate Acotadas(ts: seq<Tarefa>, horizonte: real, passo: real) {
    forall j :: 0 <= j < |ts| ==> ts[j].duracao >= passo && ts[j].tempoChegada <= horizonte
  }

  /** Where `t` first sits in `ts`, or |ts| when it is not there. */
  function Posicao(ts: seq<Tarefa>, t: Tarefa): (i: nat)
    ensures i <= |ts| && (i < |ts| <==> t in ts)
    ensures i < |ts| ==> ts[i] == t
  {
    if ts == [] then 0 else if ts[0] == t then 0 else 1 + Posicao(ts[1..], t)
  }

  /** Before the loop every task is queued and untouched. */
  lemma SequenciaInicial(vs: seq<Vista>, ts: seq<Tarefa>, unica: bool)
    requires |vs| == |ts| && Distintas(ts)
    ensures Sequencia(vs, vs, ts, ts, unica)
  {
  }

  /** Taking the `i`-th task off the queue and running it to completion from `inicio` keeps the invariant. */
  lemma RetiradaPreserva(v0s: seq<Vista>, vs: seq<Vista>, ts: seq<Tarefa>, fila: seq<Tarefa>, i: nat,
                         inicio: real, unica: bool)
    requires Sequencia(v0s, vs, ts, fila, unica) && i < |ts| && ts[i] in fila && inicio >= vs[i].chegada
    ensures Sequencia(v0s, vs[i := ExecucaoInteira(vs[i], inicio)], ts, Remover(fila, ts[i]), unica)
    ensures |Remover(fila, ts[i])| < |fila| && ts[i] !in Remover(fila, ts[i])
  {
    var nova := Remover(fila, ts[i]);
    var ws := vs[i := ExecucaoInteira(vs[i], inicio)];
    assert |multiset(nova)| < |multiset(fila)|;
    RemoverDistintas(fila, ts[i]);
    assert SequencialValida(v0s[i], vs[i], true, unica);
    PrimeiraExecucao(v0s[i], inicio);
    forall j | 0 <= j < |ts|
      ensures SequencialValida(v0s[j], ws[j], ts[j] in nova, unica)
    {
      if j != i {
        assert ts[j] != ts[i];
        assert multiset(nova)[ts[j]] == multiset(fila)[ts[j]];
        assert SequencialValida(v0s[j], vs[j], ts[j] in fila, unica);
      }
    }
  }

  /** Running again, from `inicio`, a task that has already left the queue keeps the invariant of SJF. */
  lemma RepeticaoPreserva(v0s: seq<Vista>, vs: seq<Vista>, ts: seq<Tarefa>, fila: seq<Tarefa>, i: nat,
                          inicio: real)
    requires Sequencia(v0s, vs, ts, fila, false) && i < |ts| && ts[i] !in fila && inicio >= vs[i].chegada
    ensures Sequencia(v0s, vs[i := ExecucaoInteira(vs[i], inicio)], ts, fila, false)
  {
    assert SequencialValida(v0s[i], vs[i], false, false);
    NovaExecucao(v0s[i], vs[i], inicio);
  }

  /** With the queue empty, every task has been run to completion (exactly once when `unica`). */
  lemma SequenciaFinal(v0s: seq<Vista>, vs: seq<Vista>, ts: seq<Tarefa>, unica: bool)
    requires Sequencia(v0s, vs, ts, [], unica)
    ensures forall j :: 0 <= j < |ts| ==>
      Reexecutada(v0s[j], vs[j]) && (unica ==> |vs[j].bursts| == |v0s[j].bursts| + 1)
  {
    forall j | 0 <= j < |ts|
      ensures Reexecutada(v0s[j], vs[j]) && (unica ==> |vs[j].bursts| == |v0s[j].bursts| + 1)
    {
      assert SequencialValida(v0s[j], vs[j], ts[j] in [], unica);
    }
  }

  /** The idle measure counted in units of `passo`. */
  function Escala(relogio: real, horizonte: real, passo: real): nat
    requires passo > 0.0
  {
    Ociosidade(relogio / passo, horizonte / passo)
  }

  /** Moving the clock forward by at least `passo`, from no later than the horizon, lowers the scaled measure. */
  lemma EscalaDecresce(relogio: real, depois: real, horizonte: real, passo: real)
    requires passo > 0.0 && relogio <= horizonte && depois >= relogio + passo
    ensures Escala(depois, horizonte, passo) < Escala(relogio, horizonte, passo)
  {
    var r, d, h := relogio / passo, depois / passo, horizonte / passo;
    assert r * passo == relogio && d * passo == depois && h * passo == horizonte;
    assert (r + 1.0) * passo == relogio + passo;
    Monotona(r, h, passo);
    Monotona(r + 1.0, d, passo);
    OciosidadeDecresce(r, d, h);
  }

  /** How many more steps of `passo` the clock can take before it passes `horizonte`. */
  function OciosidadeEm(relogio: real, horizonte: real, passo: real): nat
    requires passo > 0.0
    decreases Escala(relogio, horizonte, passo)
  {
    if relogio > horizonte then 0
    else
      EscalaDecresce(relogio, relogio + passo, horizonte, passo);
      1 + OciosidadeEm(relogio + passo, horizonte, passo)
  }

  /** A later clock has no more steps left. */
  lemma {:induction false} OciosidadeEmMonotona(a: real, b: real, horizonte: real, passo: real)
    requires passo > 0.0 && a <= b
    ensures OciosidadeEm(b, horizonte, passo) <= OciosidadeEm(a, horizonte, passo)
    decreases Escala(a, horizonte, passo)
  {
    if b <= horizonte {
      EscalaDecresce(a, a + passo, horizonte, passo);
      OciosidadeEmMonotona(a + passo, b + passo, horizonte, passo);
    }
  }

  /** Moving the clock forward by at least `passo`, while it is before the horizon, lowers the measure. */
  lemma OciosidadeEmDecresce(relogio: real, depois: real, horizonte: real, passo: real)
    requires passo > 0.0 && relogio < horizonte && depois >= relogio + passo
    ensures OciosidadeEm(depois, horizonte, passo) < OciosidadeEm(relogio, horizonte, passo)
  {
    OciosidadeEmMonotona(relogio + passo, depois, horizonte, passo);
  }

  /** Every task of a sub-multiset of `ts` is a task of `ts`. */
  lemma FilaNaLista(fila: seq<Tarefa>, ts: seq<Tarefa>)
    requires multiset(fila) <= multiset(ts)
    ensures forall j :: 0 <= j < |fila| ==> fila[j] in ts
  {
    forall j | 0 <= j < |fila|
      ensures fila[j] in ts
    {
      NaLista(fila, ts, fila[j]);
    }
  }

  /** The snapshots `vs` carry the fixed fields of the tasks `ts`, position by position. */
  predicate Fixos(vs: seq<Vista>, ts: seq<Tarefa>) {
    && |vs| == |ts|
    && forall j :: 0 <= j < |ts| ==>
         && vs[j].chegada == ts[j].tempoChegada && vs[j].duracao == ts[j].duracao
         && vs[j].prioridade == ts[j].prioridade && vs[j].deadline == ts[j].deadline
  }

  /**
   * The loop state of SJF as values: the queue, the snapshots of the task
   * list, the clock, and the task of the previous iteration (none before
   * the first one).
   */
  datatype EstadoS = EstadoS(fila: seq<Tarefa>, vs: seq<Vista>, relogio: real, ultima: Option<Tarefa>)

  predicate FilaVaziaS(e: EstadoS) { e.fila == [] }

  /**
   * A loop state of SJF over the task list `ts`: a snapshot per task, only
   * tasks of the list queued or run, and a previous task whenever no queued
   * task has arrived.
   */
  predicate BemS(e: EstadoS, ts: seq<Tarefa>) {
    && Fixos(e.vs, ts)
    && (forall j :: 0 <= j < |e.fila| ==> e.fila[j] in ts)
    && (e.ultima.Some? ==> e.ultima.value in ts)
    && (Chegaram(e.fila, e.relogio) == [] ==> e.ultima.Some?)
  }

  /**
   * One iteration of SJF's `while fila` loop: the first arrived task with
   * the shortest duration leaves the queue, or, with none arrived, the
   * previous iteration's task is taken again; that task runs to completion
   * from the clock or its arrival, whichever is later, and the clock moves
   * to the end of the run.
   */
  function PassoS(e: EstadoS, ts: seq<Tarefa>): (r: EstadoS)
    requires BemS(e, ts)
    ensures BemS(r, ts) && r.ultima == Some(EscolhaS(e, ts))
    ensures r.relogio == Max(e.relogio, r.ultima.value.tempoChegada) + r.ultima.value.duracao
    ensures Chegaram(e.fila, e.relogio) == [] <==> r.fila == e.fila
    ensures Chegaram(e.fila, e.relogio) != [] ==> |r.fila| < |e.fila|
  {
    var t := EscolhaS(e, ts);
    var i := Posicao(ts, t);
    var inicio := Max(e.relogio, t.tempoChegada);
    var vs := e.vs[i := ExecucaoInteira(e.vs[i], inicio)];
    FixosAtualizados(e.vs, ts, i, ExecucaoInteira(e.vs[i], inicio));
    if Chegaram(e.fila, e.relogio) != [] then
      RemoverContida(e.fila, ts, t);
      EstadoS(Remover(e.fila, t), vs, inicio + t.duracao, Some(t))
    else
      EstadoS(e.fila, vs, inicio + t.duracao, Some(t))
  }

  /**
   * The task an SJF iteration runs: the first arrived task with the
   * shortest duration, or, with none arrived, the previous iteration's
   * task again.
   */
  function EscolhaS(e: EstadoS, ts: seq<Tarefa>): (t: Tarefa)
    requires BemS(e, ts)
    ensures t in ts
    ensures Chegaram(e.fila, e.relogio) == [] ==> Some(t) == e.ultima
    ensures Chegaram(e.fila, e.relogio) != [] ==>
      var c := Chegaram(e.fila, e.relogio);
      var k := SelecaoSJF(VistasDe(c, ts, e.vs));
      && t == c[k] && t in e.fila
      && (forall j :: 0 <= j < |c| ==> c[k].duracao <= c[j].duracao)
      && (forall j :: 0 <= j < k ==> c[k].duracao < c[j].duracao)
  {
    var c := Chegaram(e.fila, e.relogio);
    if c == [] then e.ultima.value
    else
      VistasFixas(c, ts, e.vs);
      c[SelecaoSJF(VistasDe(c, ts, e.vs))]
  }

  /** The snapshots of queued tasks, taken out of `vs`, carry those tasks' fixed fields. */
  lemma VistasFixas(c: seq<Tarefa>, ts: seq<Tarefa>, vs: seq<Vista>)
    requires Fixos(vs, ts) && forall j :: 0 <= j < |c| ==> c[j] in ts
    ensures forall j :: 0 <= j < |c| ==>
      VistasDe(c, ts, vs)[j].duracao == c[j].duracao && VistasDe(c, ts, vs)[j].prioridade == c[j].prioridade
  {
  }

  /** Replacing one snapshot by one with the same fixed fields keeps them all agreeing with the tasks. */
  lemma FixosAtualizados(vs: seq<Vista>, ts: seq<Tarefa>, i: nat, w: Vista)
    requires Fixos(vs, ts) && i < |vs|
    requires w.chegada == vs[i].chegada && w.duracao == vs[i].duracao
    requires w.prioridade == vs[i].prioridade && w.deadline == vs[i].deadline
    ensures Fixos(vs[i := w], ts)
  {
  }

  /** Removing a queued task shortens the queue and keeps it within the list `ts`. */
  lemma RemoverContida(fila: seq<Tarefa>, ts: seq<Tarefa>, t: Tarefa)
    requires t in fila && forall j :: 0 <= j < |fila| ==> fila[j] in ts
    ensures |Remover(fila, t)| < |fila|
    ensures forall j :: 0 <= j < |Remover(fila, t)| ==> Remover(fila, t)[j] in ts
  {
    var r := Remover(fila, t);
    assert |multiset(r)| == |multiset(fila)| - 1;
    forall j | 0 <= j < |r|
      ensures r[j] in ts
    {
      assert r[j] in multiset(r);
      assert r[j] in fila;
    }
  }

  /** `PassoS` with some queued task arrived, spelt out: the `k`-th arrived task leaves the queue and runs. */
  lemma PassoSRetirada(e: EstadoS, ts: seq<Tarefa>, k: nat, nova: seq<Tarefa>, ws: seq<Vista>, relogio: real)
    requires BemS(e, ts) && Chegaram(e.fila, e.relogio) != []
    requires var c := Chegaram(e.fila, e.relogio);
      && k == SelecaoSJF(VistasDe(c, ts, e.vs))
      && var t := c[k];
      var i := Posicao(ts, t);
      && nova == Remover(e.fila, t)
      && ws == e.vs[i := ExecucaoInteira(e.vs[i], Max(e.relogio, t.tempoChegada))]
      && relogio == Max(e.relogio, t.tempoChegada) + t.duracao
    ensures EstadoS(nova, ws, relogio, Some(Chegaram(e.fila, e.relogio)[k])) == PassoS(e, ts)
  {
  }

  /** `PassoS` with no queued task arrived, spelt out: the previous task runs again. */
  lemma PassoSRepetida(e: EstadoS, ts: seq<Tarefa>, ws: seq<Vista>, relogio: real)
    requires BemS(e, ts) && Chegaram(e.fila, e.relogio) == []
    requires var t := e.ultima.value;
      var i := Posicao(ts, t);
      && ws == e.vs[i := ExecucaoInteira(e.vs[i], Max(e.relogio, t.tempoChegada))]
      && relogio == Max(e.relogio, t.tempoChegada) + t.duracao
    ensures EstadoS(e.fila, ws, relogio, e.ultima) == PassoS(e, ts)
  {
  }

  /** The state after `n` iterations of SJF's loop over the tasks `ts` from `e`, the loop stopping at an empty queue. */
  function IterarS(e: EstadoS, ts: seq<Tarefa>, n: nat): EstadoS {
    if n == 0 then e
    else
      var p := IterarS(e, ts, n - 1);
      if FilaVaziaS(p) || !BemS(p, ts) then p else PassoS(p, ts)
  }

  /** Every snapshot in `ws` is the one in `v0s` run, to completion, at least once more. */
  predicate Reexecutadas(v0s: seq<Vista>, ws: seq<Vista>) {
    |v0s| == |ws| && forall j :: 0 <= j < |ws| ==> Reexecutada(v0s[j], ws[j])
  }

  /** Every snapshot in `ws` is the one in `v0s` run, to completion, exactly once more. */
  predicate ExecutadasUmaVez(v0s: seq<Vista>, ws: seq<Vista>) {
    |v0s| == |ws| && forall j :: 0 <= j < |ws| ==> Reexecutada(v0s[j], ws[j]) && |ws[j].bursts| == |v0s[j].bursts| + 1
  }

  /**
   * SJF's run from `e0` over the tasks `ts` ends with the snapshots `ws` and
   * the clock at `relogio`: some number of `PassoS` iterations empties the
   * queue.
   */
  ghost predicate PercorridoS(e0: EstadoS, ts: seq<Tarefa>, ws: seq<Vista>, relogio: real) {
    exists n: nat :: PercorreS(e0, ts, n, ws, relogio)
  }

  /** `n` iterations of `PassoS` from `e0` empty the queue and leave `ws` and `relogio`. */
  ghost predicate PercorreS(e0: EstadoS, ts: seq<Tarefa>, n: nat, ws: seq<Vista>, relogio: real) {
    var f := IterarS(e0, ts, n);
    f.fila == [] && f.vs == ws && f.relogio == relogio
  }

  /** The loop state of non-preemptive priority as values: the queue, the snapshots of the task list and the clock. */
  datatype EstadoNP = EstadoNP(fila: seq<Tarefa>, vs: seq<Vista>, relogio: real)

  predicate FilaVaziaNP(e: EstadoNP) { e.fila == [] }

  /** A loop state of non-preemptive priority over the task list `ts`: a snapshot per task, only tasks of the list queued. */
  predicate BemNP(e: EstadoNP, ts: seq<Tarefa>) {
    && Fixos(e.vs, ts)
    && (forall j :: 0 <= j < |e.fila| ==> e.fila[j] in ts)
  }

  /**
   * One iteration of non-preemptive priority's `while fila` loop: with no
   * queued task arrived the clock moves on by one unit; otherwise the first
   * arrived task with the largest `prioridade` leaves the queue and runs to
   * completion from the clock, which moves to the end of the run.
   */
  function PassoNP(e: EstadoNP, ts: seq<Tarefa>): (r: EstadoNP)
    requires BemNP(e, ts)
    ensures BemNP(r, ts)
    ensures Chegaram(e.fila, e.relogio) == [] ==> r == e.(relogio := e.relogio + 1.0)
    ensures Chegaram(e.fila, e.relogio) != [] ==>
      var t := EscolhaNP(e, ts);
      && |r.fila| < |e.fila| && r.relogio == e.relogio + t.duracao
      && r.vs[Posicao(ts, t)] == ExecucaoInteira(e.vs[Posicao(ts, t)], e.relogio)
  {
    if Chegaram(e.fila, e.relogio) == [] then e.(relogio := e.relogio + 1.0)
    else
      var t := EscolhaNP(e, ts);
      var i := Posicao(ts, t);
      FixosAtualizados(e.vs, ts, i, ExecucaoInteira(e.vs[i], e.relogio));
      RemoverContida(e.fila, ts, t);
      EstadoNP(Remover(e.fila, t), e.vs[i := ExecucaoInteira(e.vs[i], e.relogio)], e.relogio + t.duracao)
  }

  /**
   * The task a non-preemptive priority iteration runs when some queued task
   * has arrived: the first arrived one with the largest `prioridade`.
   */
  function EscolhaNP(e: EstadoNP, ts: seq<Tarefa>): (t: Tarefa)
    requires BemNP(e, ts) && Chegaram(e.fila, e.relogio) != []
    ensures t in ts && t in e.fila
    ensures var c := Chegaram(e.fila, e.relogio);
      var k := SelecaoPrioridadeNP(VistasDe(c, ts, e.vs));
      && t == c[k]
      && (forall j :: 0 <= j < |c| ==> c[j].prioridade <= t.prioridade)
      && (forall j :: 0 <= j < k ==> c[j].prioridade < t.prioridade)
  {
    var c := Chegaram(e.fila, e.relogio);
    VistasFixas(c, ts, e.vs);
    c[SelecaoPrioridadeNP(VistasDe(c, ts, e.vs))]
  }

  /** `PassoNP` with some queued task arrived, spelt out: the `k`-th arrived task leaves the queue and runs from the clock. */
  lemma PassoNPRetirada(e: EstadoNP, ts: seq<Tarefa>, k: nat, nova: seq<Tarefa>, ws: seq<Vista>, relogio: real)
    requires BemNP(e, ts) && Chegaram(e.fila, e.relogio) != []
    requires var c := Chegaram(e.fila, e.relogio);
      && k == SelecaoPrioridadeNP(VistasDe(c, ts, e.vs))
      && var t := c[k];
      var i := Posicao(ts, t);
      && nova == Remover(e.fila, t)
      && ws == e.vs[i := ExecucaoInteira(e.vs[i], e.relogio)]
      && relogio == e.relogio + t.duracao
    ensures EstadoNP(nova, ws, relogio) == PassoNP(e, ts)
  {
  }

  /** The state after `n` iterations of non-preemptive priority's loop over the tasks `ts` from `e`. */
  function IterarNP(e: EstadoNP, ts: seq<Tarefa>, n: nat): EstadoNP {
    if n == 0 then e
    else
      var p := IterarNP(e, ts, n - 1);
      if FilaVaziaNP(p) || !BemNP(p, ts) then p else PassoNP(p, ts)
  }

  /** Non-preemptive priority's run from `e0` over the tasks `ts` ends with the snapshots `ws` and the clock at `relogio`. */
  ghost predicate PercorridoN(e0: EstadoNP, ts: seq<Tarefa>, ws: seq<Vista>, relogio: real) {
    exists n: nat :: IterarNP(e0, ts, n) == EstadoNP([], ws, relogio)
  }

  class Escalonador {
    const politica: Politica
    /** The time slice; FIFO, SJF and non-preemptive priority ignore it. */
    const quantum: real
    var tarefas: seq<Tarefa>
    /** The first added task with the shortest duration. */
    var menorTarefa: Option<Tarefa>
    var sobrecargaTotal: real
    var tempoAtual: real
    /** UG's adaptive slice. */
    var quantumAtual: real

    ghost predicate Valid()
      reads this`quantumAtual, this`menorTarefa, this`tarefas
    {
      Valido(quantum, quantumAtual, menorTarefa, tarefas)
    }

    constructor (politica: Politica, quantum: real)
      ensures this.politica == politica && this.quantum == quantum
      ensures tarefas == [] && menorTarefa == None
      ensures sobrecargaTotal == 0.0 && tempoAtual == 0.0 && quantumAtual == quantum
      ensures Valid()
    {
      this.politica := politica;
      this.quantum := quantum;
      tarefas := [];
      menorTarefa := None;
      sobrecargaTotal := 0.0;
      tempoAtual := 0.0;
      quantumAtual := quantum;
    }

    /**
     * Appends a task and keeps the shortest-task tracker: a strictly
     * shorter task replaces the current one, so ties keep the earliest.
     */
    method AdicionarTarefa(tarefa: Tarefa)
      requires Valid()
      modifies this`tarefas, this`menorTarefa
      ensures Valid()
      ensures tarefas == old(tarefas) + [tarefa]
      ensures menorTarefa ==
        if old(menorTarefa).None? || tarefa.duracao < old(menorTarefa).value.duracao
        then Some(tarefa) else old(menorTarefa)
      ensures old(menorTarefa) == MenorPorAdicao(old(tarefas)) ==> menorTarefa == MenorPorAdicao(tarefas)
    {
      tarefas := tarefas + [tarefa];
      if menorTarefa.None? {
        menorTarefa := Some(tarefa);
      } else if tarefa.duracao < menorTarefa.value.duracao {
        menorTarefa := Some(tarefa);
      }
      assert tarefas[..|tarefas| - 1] == old(tarefas);
    }

    method RegistrarSobrecarga(tempo: real)
      modifies this`sobrecargaTotal
      ensures sobrecargaTotal == old(sobrecargaTotal) + tempo
    {
      sobrecargaTotal := sobrecargaTotal + tempo;
    }

    /** Mean turnaround of the finished tasks, None when no task finished. */
    method CalcularTurnaroundMedio() returns (r: Option<real>)
      ensures r == MediaDe(Turnarounds(Retratos(tarefas)))
    {
      var tempos: seq<real> := [];
      for i := 0 to |tarefas|
        invariant tempos == Turnarounds(Retratos(tarefas[..i]))
      {
        assert tarefas[..i + 1][..i] == tarefas[..i];
        var tarefa := tarefas[i];
        if tarefa.tempoFinal.Some? {
          tempos := tempos + [tarefa.tempoFinal.value - tarefa.tempoChegada];
        }
      }
      assert tarefas[..|tarefas|] == tarefas;
      if tempos != [] {
        return Some(Soma(tempos) / (|tempos| as real));
      }
      return None;
    }

    /** Mean wait (turnaround minus duration) of the finished tasks, None when no task finished. */
    method CalcularTempoEmEsperaMedio() returns (r: Option<real>)
      ensures r == MediaDe(Esperas(Retratos(tarefas)))
    {
      var tempos: seq<real> := [];
      for i := 0 to |tarefas|
        invariant tempos == Esperas(Retratos(tarefas[..i]))
      {
        assert tarefas[..i + 1][..i] == tarefas[..i];
        var tarefa := tarefas[i];
        if tarefa.tempoFinal.Some? {
          tempos := tempos + [tarefa.tempoFinal.value - tarefa.tempoChegada - tarefa.duracao];
        }
      }
      assert tarefas[..|tarefas|] == tarefas;
      if tempos != [] {
        return Some(Soma(tempos) / (|tempos| as real));
      }
      return None;
    }

    /**
     * One burst of a quantum scheduler on `tarefa`, with slice `q`; the
     * clock moves to the end of the burst.
     */
    method Despachar(tarefa: Tarefa, q: real)
      modifies tarefa, this`tempoAtual
      ensures tarefa.Retrato() == Rajada(old(tarefa.Retrato()), old(tempoAtual), q)
      ensures tempoAtual == Ultima(tarefa.temposExecucao).fim
    {
      var inicio := Max(tempoAtual, tarefa.tempoChegada);
      tarefa.tempoInicioExecucaoAtual := Some(inicio);
      tarefa.tempoInicio := if tarefa.tempoInicio.None? then Some(inicio) else tarefa.tempoInicio;
      var tempoExec := Fatia(tarefa.tempoRestante, q);
      tarefa.tempoEmEspera := tarefa.tempoEmEspera + (inicio - tarefa.tempoFinalExecucaoAtual.GetOr(0.0));
      tempoAtual := inicio + tempoExec;
      tarefa.tempoFinalExecucaoAtual := Some(tempoAtual);
      tarefa.temposExecucao := tarefa.temposExecucao + [Burst(inicio, tempoAtual)];
      tarefa.tempoRestante := tarefa.tempoRestante - tempoExec;
      tarefa.tempoDeResposta := Some(tarefa.tempoInicio.value - tarefa.tempoChegada);
    }

    /** UG's rule: a task with urgency above `urgMax` gets the slice grown by one. */
    predicate Acelera(v: Vista, urgMax: real)
      requires politica.UG? ==> v.deadline.Some?
    {
      politica.UG? && Urgencia(v.prioridade, v.deadline.value, v.restante, urgMax) > urgMax
    }

    /** The slice a dispatch of `v` runs with, given UG's current slice `atual`. */
    function FatiaDe(v: Vista, urgMax: real, atual: real): real
      requires politica.UG? ==> v.deadline.Some?
    {
      if Acelera(v, urgMax) then atual + 1.0 else quantum
    }

    /**
     * The state between two iterations of a quantum scheduler: `vs` holds
     * the snapshots of the tasks, and `InvarianteV` holds of them, of the
     * queue and of the scheduler's clock, overhead and slice.
     */
    ghost predicate EmCurso(vs: seq<Vista>, fila: seq<Tarefa>, base: real)
      reads this, tarefas
    {
      && |vs| == |tarefas|
      && (forall j :: 0 <= j < |tarefas| ==> vs[j] == tarefas[j].Retrato())
      && InvarianteV(vs, tarefas, fila, tempoAtual, sobrecargaTotal, base, quantum, quantumAtual,
                     politica.ExigeDeadline())
    }

    /**
     * A loop state over the task list `ts`: a snapshot per task, only tasks
     * of the list queued, and, under EDF and UG, a deadline on every task.
     */
    predicate Bem(e: EstadoQ, ts: seq<Tarefa>) {
      && |e.vs| == |ts|
      && (forall j :: 0 <= j < |e.fila| ==> e.fila[j] in ts)
      && (politica.ExigeDeadline() ==> ComDeadlines(e.vs))
    }

    /**
     * What an iteration does to the chosen task `t`: without time left it
     * is only taken off the queue; otherwise it is served with the slice
     * of `FatiaDe`, the clock moves to the end of the burst plus 0.3 of
     * overhead when time is left, and the task goes back into the queue in
     * that case.  UG's slice grows by one for an urgent task and is
     * restored when that task finishes.
     */
    function Tratamento(e: EstadoQ, ts: seq<Tarefa>, t: Tarefa, urgMax: real): EstadoQ
      requires Bem(e, ts) && t in ts
    {
      var i := Posicao(ts, t);
      var v := e.vs[i];
      if v.restante <= 0.0 then e.(fila := Remover(e.fila, t))
      else
        var q := FatiaDe(v, urgMax, e.atual);
        var w := Servida(v, e.relogio, q);
        var relogio := RelogioApos(v, e.relogio, q);
        var resto := Remover(e.fila, t);
        var fila := if w.restante > 0.0 then Reinsercao(resto, t, relogio) else resto;
        EstadoQ(fila, e.vs[i := w], relogio,
                e.sobrecarga + (if w.restante > 0.0 then SOBRECARGA else 0.0),
                if !Acelera(v, urgMax) then e.atual else if w.restante > 0.0 then q else quantum)
    }

    /** The invariant of the loop makes its state well formed. */
    lemma EmCursoBem(vs: seq<Vista>, fila: seq<Tarefa>, base: real)
      requires EmCurso(vs, fila, base)
      ensures Bem(EstadoQ(fila, vs, tempoAtual, sobrecargaTotal, quantumAtual), tarefas)
    {
      forall j | 0 <= j < |fila|
        ensures fila[j] in tarefas
      {
        assert fila[j] in multiset(fila);
      }
      if politica.ExigeDeadline() {
        forall j | 0 <= j < |vs|
          ensures vs[j].deadline.Some?
        {
          assert TarefaValida(vs[j], tarefas[j] in fila, tempoAtual, true);
        }
      }
    }

    /** Taking care of a task keeps the loop state well formed. */
    lemma TratamentoBem(e: EstadoQ, ts: seq<Tarefa>, t: Tarefa, urgMax: real)
      requires Bem(e, ts) && t in ts
      ensures Bem(Tratamento(e, ts, t, urgMax), ts)
    {
      var r := Tratamento(e, ts, t, urgMax);
      TratamentoFila(e, ts, t, urgMax);
      ContidaApos(e.fila, r.fila, ts, t);
      var i := Posicao(ts, t);
      var v := e.vs[i];
      if v.restante > 0.0 {
        var w := Servida(v, e.relogio, FatiaDe(v, urgMax, e.atual));
        assert r.vs == e.vs[i := w] && w.deadline == v.deadline;
      }
    }

    /** Taking care of `t` leaves the queue with the tasks it had, `t` added at most. */
    lemma TratamentoFila(e: EstadoQ, ts: seq<Tarefa>, t: Tarefa, urgMax: real)
      requires Bem(e, ts) && t in ts
      ensures multiset(Tratamento(e, ts, t, urgMax).fila) <= multiset(e.fila) + multiset{t}
    {
      var resto := Remover(e.fila, t);
      var fila := Tratamento(e, ts, t, urgMax).fila;
      assert fila == resto || exists relogio :: fila == Reinsercao(resto, t, relogio);
      assert multiset(resto) <= multiset(e.fila);
    }

    /** `Tratamento` of the `i`-th task when it has time left, spelt out. */
    lemma TratamentoServido(e: EstadoQ, ts: seq<Tarefa>, t: Tarefa, urgMax: real, i: nat, r: EstadoQ)
      requires Bem(e, ts) && Distintas(ts) && i < |ts| && ts[i] == t && e.vs[i].restante > 0.0
      requires var v := e.vs[i];
        var q := FatiaDe(v, urgMax, e.atual);
        var w := Servida(v, e.relogio, q);
        && r.vs == e.vs[i := w]
        && r.relogio == RelogioApos(v, e.relogio, q)
        && r.sobrecarga == e.sobrecarga + (if w.restante > 0.0 then SOBRECARGA else 0.0)
        && r.fila == (if w.restante > 0.0 then Reinsercao(Remover(e.fila, t), t, r.relogio) else Remover(e.fila, t))
        && r.atual == (if !Acelera(v, urgMax) then e.atual else if w.restante > 0.0 then q else quantum)
      ensures Tratamento(e, ts, t, urgMax) == r
    {
      assert Posicao(ts, t) == i;
    }

    /** `PassoQ` with no queued task arrived: only the clock moves, to `ceil(clock + 1)`. */
    lemma PassoQOcioso(e: EstadoQ, ts: seq<Tarefa>, urgMax: real)
      requires politica.ComQuantum() && Bem(e, ts) && Chegaram(e.fila, e.relogio) == []
      ensures PassoQ(e, ts, urgMax) == EstadoQ(e.fila, e.vs, Teto(e.relogio + 1.0) as real, e.sobrecarga, e.atual)
    {
    }

    /** `PassoQ` with some queued task arrived: the policy's pick `c[k]` among the arrived tasks `c` is taken care of. */
    lemma PassoQEscolhido(e: EstadoQ, ts: seq<Tarefa>, urgMax: real, c: seq<Tarefa>, k: nat)
      requires politica.ComQuantum() && Bem(e, ts)
      requires c == Chegaram(e.fila, e.relogio) && c != [] && forall j :: 0 <= j < |c| ==> c[j] in ts
      requires k == Escolha(politica, VistasDe(c, ts, e.vs), e.relogio)
      ensures PassoQ(e, ts, urgMax) == Tratamento(e, ts, c[k], urgMax)
    {
    }

    /**
     * One iteration of the `while fila` loop of a quantum scheduler: with
     * no queued task arrived the clock jumps to `ceil(clock + 1)`; otherwise
     * the arrived task the policy picks is taken care of.
     */
    function PassoQ(e: EstadoQ, ts: seq<Tarefa>, urgMax: real): (r: EstadoQ)
      requires politica.ComQuantum() && Bem(e, ts)
      ensures Bem(r, ts)
    {
      var c := Chegaram(e.fila, e.relogio);
      if c == [] then e.(relogio := Teto(e.relogio + 1.0) as real)
      else
        var vc := VistasDe(c, ts, e.vs);
        assert politica.EDF? ==> ComDeadlines(vc);
        TratamentoBem(e, ts, c[Escolha(politica, vc, e.relogio)], urgMax);
        Tratamento(e, ts, c[Escolha(politica, vc, e.relogio)], urgMax)
    }

    /** `PassoQ` over the task list `ts`, as the step of `Iterar`. */
    function PassosQ(ts: seq<Tarefa>, urgMax: real): EstadoQ -> EstadoQ {
      e => if politica.ComQuantum() && Bem(e, ts) then PassoQ(e, ts, urgMax) else e
    }

    /**
     * The scheduler is in the final state of the run from `e0`: some
     * number of `PassoQ` iterations empties the queue and leaves the
     * snapshots `ws` and the clock, overhead and slice the scheduler has.
     */
    ghost predicate Percorrido(e0: EstadoQ, urgMax: real, ws: seq<Vista>)
      reads this
    {
      Termina(e0, PassosQ(tarefas, urgMax), FilaVazia, EstadoQ([], ws, tempoAtual, sobrecargaTotal, quantumAtual))
    }

    /** One more iteration from the state `a` reached after `n` of them, `PassoQ` leading to `b`. */
    lemma IterarPassoQ(e0: EstadoQ, ts: seq<Tarefa>, urgMax: real, n: nat, a: EstadoQ, b: EstadoQ)
      requires Iterar(e0, PassosQ(ts, urgMax), FilaVazia, n) == a && a.fila != []
      requires politica.ComQuantum() && Bem(a, ts) && PassoQ(a, ts, urgMax) == b
      ensures Iterar(e0, PassosQ(ts, urgMax), FilaVazia, n + 1) == b
    {
      assert PassosQ(ts, urgMax)(a) == b;
    }

    /**
     * One dispatch of a quantum scheduler on `tarefa` with slice `q`: the
     * burst, then 0.3 of overhead when time is left, or the completion.
     */
    method Servir(tarefa: Tarefa, q: real, ghost vs: seq<Vista>, ghost i: nat)
      requires |vs| == |tarefas| && i < |tarefas| && tarefas[i] == tarefa
      requires forall j :: 0 <= j < |tarefas| ==> vs[j] == tarefas[j].Retrato()
      requires forall j :: 0 <= j < |tarefas| && j != i ==> tarefas[j] != tarefa
      modifies tarefa, this`tempoAtual, this`sobrecargaTotal
      ensures var w := Servida(vs[i], old(tempoAtual), q);
        && tarefa.Retrato() == w
        && (forall j :: 0 <= j < |tarefas| ==> vs[i := w][j] == tarefas[j].Retrato())
        && tempoAtual == RelogioApos(vs[i], old(tempoAtual), q)
        && sobrecargaTotal == old(sobrecargaTotal) + (if w.restante > 0.0 then SOBRECARGA else 0.0)
    {
      Despachar(tarefa, q);
      if tarefa.tempoRestante > 0.0 {
        RegistrarSobrecarga(SOBRECARGA);
        tempoAtual := tempoAtual + SOBRECARGA;
      } else {
        tarefa.tempoFinal := Some(tempoAtual);
      }
    }

    /**
     * Serves `tarefa`, taken off the queue with time left, with the slice
     * of `FatiaDe`; it goes back into the queue when time is still left.
     * UG grows its slice by one for an urgent task and restores it when
     * that task finishes.
     */
    method Atender(fila: seq<Tarefa>, tarefa: Tarefa, urgMax: real, ghost vs: seq<Vista>, ghost i: nat)
      returns (nova: seq<Tarefa>)
      requires |vs| == |tarefas| && i < |tarefas| && tarefas[i] == tarefa
      requires forall j :: 0 <= j < |tarefas| ==> vs[j] == tarefas[j].Retrato()
      requires forall j :: 0 <= j < |tarefas| && j != i ==> tarefas[j] != tarefa
      requires politica.UG? ==> vs[i].deadline.Some?
      requires tarefa.tempoRestante > 0.0
      modifies this`tempoAtual, this`quantumAtual, this`sobrecargaTotal, tarefa
      ensures var q := FatiaDe(vs[i], urgMax, old(quantumAtual));
        var w := Servida(vs[i], old(tempoAtual), q);
        && tarefa.Retrato() == w
        && (forall j :: 0 <= j < |tarefas| ==> vs[i := w][j] == tarefas[j].Retrato())
        && tempoAtual == RelogioApos(vs[i], old(tempoAtual), q)
        && sobrecargaTotal == old(sobrecargaTotal) + (if w.restante > 0.0 then SOBRECARGA else 0.0)
        && nova == (if w.restante > 0.0 then Reinsercao(Remover(fila, tarefa), tarefa, tempoAtual)
                    else Remover(fila, tarefa))
        && quantumAtual == (if !Acelera(vs[i], urgMax) then old(quantumAtual)
                            else if w.restante > 0.0 then q else quantum)
    {
      var q := quantum;
      var acelera := false;
      if politica.UG? {
        var urgencia := Urgencia(tarefa.prioridade, tarefa.deadline.value, tarefa.tempoRestante, urgMax);
        if urgencia > urgMax {
          acelera := true;
          q := quantumAtual + 1.0;
        }
      }
      // The burst uses up the task exactly when its remaining time fits the slice.
      var fim := tarefa.tempoRestante <= q;
      if acelera {
        quantumAtual := if fim then quantum else q;
      }
      nova := Devolver(fila, tarefa, q, vs, i);
    }

    /** Serves `tarefa` with slice `q` and puts it back into the queue when time is still left. */
    method Devolver(fila: seq<Tarefa>, tarefa: Tarefa, q: real, ghost vs: seq<Vista>, ghost i: nat)
      returns (nova: seq<Tarefa>)
      requires |vs| == |tarefas| && i < |tarefas| && tarefas[i] == tarefa
      requires forall j :: 0 <= j < |tarefas| ==> vs[j] == tarefas[j].Retrato()
      requires forall j :: 0 <= j < |tarefas| && j != i ==> tarefas[j] != tarefa
      modifies tarefa, this`tempoAtual, this`sobrecargaTotal
      ensures var w := Servida(vs[i], old(tempoAtual), q);
        && tarefa.Retrato() == w
        && (forall j :: 0 <= j < |tarefas| ==> vs[i := w][j] == tarefas[j].Retrato())
        && tempoAtual == RelogioApos(vs[i], old(tempoAtual), q)
        && sobrecargaTotal == old(sobrecargaTotal) + (if w.restante > 0.0 then SOBRECARGA else 0.0)
        && (w.restante > 0.0 <==> old(tarefa.tempoRestante) > q)
        && nova == (if w.restante > 0.0 then Reinsercao(Remover(fila, tarefa), tarefa, tempoAtual)
                    else Remover(fila, tarefa))
    {
      var resto := Remover(fila, tarefa);
      var fim := tarefa.tempoRestante <= q;
      Servir(tarefa, q, vs, i);
      if fim {
        nova := resto;
      } else {
        nova := Reinserir(resto, tarefa, tempoAtual);
      }
    }

    /** The arrived task the policy runs next. */
    method Selecionar(chegadas: seq<Tarefa>) returns (k: nat)
      requires |chegadas| > 0 && politica.ComQuantum()
      requires politica.EDF? ==> forall j :: 0 <= j < |chegadas| ==> chegadas[j].deadline.Some?
      ensures k < |chegadas| && k == Escolha(politica, Retratos(chegadas), tempoAtual)
    {
      var retratos := Retratos(chegadas);
      if politica.FutureVision? {
        k := EscolherFV(politica.estimador, retratos, tempoAtual);
      } else {
        k := Escolha(politica, retratos, tempoAtual);
      }
    }

    /**
     * One iteration of the loop of a quantum scheduler, `PassoQ`: with
     * nothing arrived the clock jumps to the next whole unit; otherwise the
     * policy's task is taken care of.  The invariant is kept, and either
     * the queued work drops, or it stays and the clock gets closer to the
     * last arrival `horizonte`.
     */
    method Passo(fila: seq<Tarefa>, ghost vs: seq<Vista>, ghost base: real, urgMax: real,
                 ghost horizonte: real)
      returns (nova: seq<Tarefa>, ghost ws: seq<Vista>)
      requires fila != [] && politica.ComQuantum()
      requires EmCurso(vs, fila, base) && Bem(EstadoQ(fila, vs, tempoAtual, sobrecargaTotal, quantumAtual), tarefas)
      requires forall j :: 0 <= j < |tarefas| ==> tarefas[j].tempoChegada <= horizonte
      modifies this`tempoAtual, this`quantumAtual, this`sobrecargaTotal, tarefas
      ensures EmCurso(ws, nova, base) && tarefas == old(tarefas)
      ensures EstadoQ(nova, ws, tempoAtual, sobrecargaTotal, quantumAtual)
        == PassoQ(EstadoQ(fila, vs, old(tempoAtual), old(sobrecargaTotal), old(quantumAtual)), tarefas, urgMax)
      ensures Pendencia(ws, tarefas, nova, quantum) < Pendencia(vs, tarefas, fila, quantum)
        || (Pendencia(ws, tarefas, nova, quantum) == Pendencia(vs, tarefas, fila, quantum)
            && Ociosidade(tempoAtual, horizonte) < Ociosidade(old(tempoAtual), horizonte))
    {
      if Chegaram(fila, tempoAtual) == [] {
        Esperar(fila, vs, base, urgMax, horizonte);
        nova, ws := fila, vs;
      } else {
        nova, ws := Tratar(fila, vs, base, urgMax);
      }
    }

    /** `Passo` with no queued task arrived: the clock jumps to `ceil(clock + 1)`, nearer to `horizonte`. */
    method Esperar(fila: seq<Tarefa>, ghost vs: seq<Vista>, ghost base: real, urgMax: real, ghost horizonte: real)
      requires fila != [] && politica.ComQuantum() && Chegaram(fila, tempoAtual) == [] && EmCurso(vs, fila, base)
      requires Bem(EstadoQ(fila, vs, tempoAtual, sobrecargaTotal, quantumAtual), tarefas)
      requires forall j :: 0 <= j < |tarefas| ==> tarefas[j].tempoChegada <= horizonte
      modifies this`tempoAtual
      ensures EmCurso(vs, fila, base) && tarefas == old(tarefas)
      ensures EstadoQ(fila, vs, tempoAtual, sobrecargaTotal, quantumAtual)
        == PassoQ(EstadoQ(fila, vs, old(tempoAtual), old(sobrecargaTotal), old(quantumAtual)), tarefas, urgMax)
      ensures Ociosidade(tempoAtual, horizonte) < Ociosidade(old(tempoAtual), horizonte)
    {
      NaLista(fila, tarefas, fila[0]);
      assert fila[0].tempoChegada > tempoAtual;
      var proximo := Teto(tempoAtual + 1.0) as real;
      OciosidadeDecresce(tempoAtual, proximo, horizonte);
      PassoQOcioso(EstadoQ(fila, vs, tempoAtual, sobrecargaTotal, quantumAtual), tarefas, urgMax);
      RelogioAvanca(vs, tarefas, fila, tempoAtual, proximo, sobrecargaTotal, base, quantum, quantumAtual,
                    politica.ExigeDeadline());
      tempoAtual := proximo;
    }

    /** `Passo` with some queued task arrived: the task the policy picks is taken care of, and the queued work drops. */
    method Tratar(fila: seq<Tarefa>, ghost vs: seq<Vista>, ghost base: real, urgMax: real)
      returns (nova: seq<Tarefa>, ghost ws: seq<Vista>)
      requires politica.ComQuantum() && Chegaram(fila, tempoAtual) != [] && EmCurso(vs, fila, base)
      requires Bem(EstadoQ(fila, vs, tempoAtual, sobrecargaTotal, quantumAtual), tarefas)
      modifies this`tempoAtual, this`quantumAtual, this`sobrecargaTotal, tarefas
      ensures EmCurso(ws, nova, base) && tarefas == old(tarefas)
      ensures EstadoQ(nova, ws, tempoAtual, sobrecargaTotal, quantumAtual)
        == PassoQ(EstadoQ(fila, vs, old(tempoAtual), old(sobrecargaTotal), old(quantumAtual)), tarefas, urgMax)
      ensures Pendencia(ws, tarefas, nova, quantum) < Pendencia(vs, tarefas, fila, quantum)
    {
      var chegadas, k := Escolher(fila, vs);
      PassoQEscolhido(EstadoQ(fila, vs, tempoAtual, sobrecargaTotal, quantumAtual), tarefas, urgMax, chegadas, k);
      nova, ws := Processar(fila, chegadas[k], vs, base, urgMax);
    }

    /** The arrived task the policy picks, as an index into the arrived tasks `chegadas`. */
    method Escolher(fila: seq<Tarefa>, ghost vs: seq<Vista>) returns (chegadas: seq<Tarefa>, k: nat)
      requires politica.ComQuantum() && Chegaram(fila, tempoAtual) != []
      requires |vs| == |tarefas| && forall j :: 0 <= j < |tarefas| ==> vs[j] == tarefas[j].Retrato()
      requires forall j :: 0 <= j < |fila| ==> fila[j] in tarefas
      requires politica.ExigeDeadline() ==> ComDeadlines(vs)
      ensures chegadas == Chegaram(fila, tempoAtual) && k < |chegadas| && chegadas[k] in fila
      ensures forall j :: 0 <= j < |chegadas| ==> chegadas[j] in tarefas
      ensures k == Escolha(politica, VistasDe(chegadas, tarefas, vs), tempoAtual)
      ensures tarefas == old(tarefas) && tempoAtual == old(tempoAtual)
      ensures sobrecargaTotal == old(sobrecargaTotal) && quantumAtual == old(quantumAtual)
    {
      chegadas := Chegaram(fila, tempoAtual);
      ChegadasConhecidas(fila, tarefas, vs, tempoAtual);
      k := Selecionar(chegadas);
    }

    /**
     * Takes the chosen `tarefa` off the queue: it is dropped when it has no
     * time left, and served otherwise.  The invariant is kept and the
     * queued work drops.
     */
    method Processar(fila: seq<Tarefa>, tarefa: Tarefa, ghost vs: seq<Vista>, ghost base: real,
                     urgMax: real)
      returns (nova: seq<Tarefa>, ghost ws: seq<Vista>)
      requires tarefa in fila && EmCurso(vs, fila, base)
      requires Bem(EstadoQ(fila, vs, tempoAtual, sobrecargaTotal, quantumAtual), tarefas)
      modifies this`tempoAtual, this`quantumAtual, this`sobrecargaTotal, tarefas
      ensures EmCurso(ws, nova, base)
      ensures tarefas == old(tarefas)
      ensures Pendencia(ws, tarefas, nova, quantum) < Pendencia(vs, tarefas, fila, quantum)
      ensures EstadoQ(nova, ws, tempoAtual, sobrecargaTotal, quantumAtual)
        == Tratamento(EstadoQ(fila, vs, old(tempoAtual), old(sobrecargaTotal), old(quantumAtual)), tarefas, tarefa, urgMax)
    {
      NaLista(fila, tarefas, tarefa);
      ghost var i := Posicao(tarefas, tarefa);
      if tarefa.tempoRestante <= 0.0 {
        nova := Remover(fila, tarefa);
        ws := vs;
        DescartePreserva(vs, tarefas, fila, nova, tempoAtual, sobrecargaTotal, base, quantum,
                         quantumAtual, politica.ExigeDeadline(), i);
      } else {
        nova, ws := Servico(fila, tarefa, i, vs, base, urgMax);
      }
    }

    /** `Atender` on the `i`-th task, with the invariant kept and the queued work lowered. */
    method Servico(fila: seq<Tarefa>, tarefa: Tarefa, ghost i: nat, ghost vs: seq<Vista>, ghost base: real,
                   urgMax: real)
      returns (nova: seq<Tarefa>, ghost ws: seq<Vista>)
      requires i < |tarefas| && tarefas[i] == tarefa && tarefa in fila && EmCurso(vs, fila, base)
      requires Bem(EstadoQ(fila, vs, tempoAtual, sobrecargaTotal, quantumAtual), tarefas)
      requires tarefa.tempoRestante > 0.0
      modifies this`tempoAtual, this`quantumAtual, this`sobrecargaTotal, tarefa
      ensures EmCurso(ws, nova, base)
      ensures Pendencia(ws, tarefas, nova, quantum) < Pendencia(vs, tarefas, fila, quantum)
      ensures EstadoQ(nova, ws, tempoAtual, sobrecargaTotal, quantumAtual)
        == Tratamento(EstadoQ(fila, vs, old(tempoAtual), old(sobrecargaTotal), old(quantumAtual)), tarefas, tarefa, urgMax)
    {
      ghost var ts, relogio, sobrecarga, atual := tarefas, tempoAtual, sobrecargaTotal, quantumAtual;
      ghost var fatia := FatiaDe(vs[i], urgMax, atual);
      assert InvarianteV(vs, ts, fila, relogio, sobrecarga, base, quantum, atual, politica.ExigeDeadline());
      assert forall j :: 0 <= j < |tarefas| && j != i ==> tarefas[j] != tarefa;
      nova := Atender(fila, tarefa, urgMax, vs, i);
      ws := vs[i := Servida(vs[i], relogio, fatia)];
      assert tarefas == ts;
      AtendimentoPreserva(vs, ts, fila, nova, relogio, tempoAtual, sobrecarga, sobrecargaTotal,
                          base, quantum, atual, quantumAtual, politica.ExigeDeadline(), i, fatia);
      TratamentoServido(EstadoQ(fila, vs, relogio, sobrecarga, atual), ts, tarefa, urgMax, i,
                        EstadoQ(nova, ws, tempoAtual, sobrecargaTotal, quantumAtual));
    }

    /** Every task is as its constructor left it. */
    ghost predicate Novas()
      reads this, tarefas
    {
      forall j :: 0 <= j < |tarefas| ==> tarefas[j].Nova()
    }

    /** EDF and UG compare deadlines, so every task must have one under them. */
    predicate PrazosPresentes()
      reads this
    {
      politica.ExigeDeadline() ==> ComPrazos(tarefas)
    }


    /**
     * `escalonar` of RR, EDF, PrioridadeP, UG and the FutureVision family:
     * the task list is sorted by arrival (stably), the clock starts at the
     * first arrival, and `Passo` runs until the queue is empty.  Every task
     * then ends consistent and done, and the overhead counter grew by 0.3
     * per burst that left work behind.
     */
    method EscalonarComQuantum(urgMax: real) returns (ghost ws: seq<Vista>)
      requires Valid() && politica.ComQuantum() && quantum > 0.0
      requires Distintas(tarefas) && Novas() && PrazosPresentes()
      modifies this`tarefas, this`tempoAtual, this`quantumAtual, this`sobrecargaTotal, tarefas
      ensures Valid() && tarefas == OrdenarPor(old(tarefas), ChegadaDe)
      ensures Espelho(ws) && Encerradas(ws)
      ensures sobrecargaTotal == old(sobrecargaTotal) + SOBRECARGA * NaoFinais(ws) as real
      ensures tarefas != [] ==> Percorrido(EstadoQ(tarefas, old(RetratosPorChegada()),
                                                   tarefas[0].tempoChegada, old(sobrecargaTotal), old(quantumAtual)), urgMax, ws)
      ensures tarefas == [] ==> tempoAtual == old(tempoAtual) && quantumAtual == old(quantumAtual)
    {
      ghost var vs := RetratosPorChegada();
      NovasReordenadas(tarefas, OrdenarPor(tarefas, ChegadaDe));
      OrdenarPorChegada();
      ghost var lista := tarefas;
      ws := vs;
      if tarefas != [] {
        ws := Rodar(urgMax, vs);
        assert tarefas == lista;
      }
    }

    /**
     * The run proper, on the sorted list: the clock starts at the first
     * arrival and the queue, holding every task, is emptied.
     */
    method Rodar(urgMax: real, ghost vs: seq<Vista>) returns (ghost ws: seq<Vista>)
      requires Valid() && tarefas != [] && politica.ComQuantum() && quantum > 0.0
      requires Distintas(tarefas) && Espelho(vs) && Iniciais(vs) && PrazosPresentes()
      modifies this`tempoAtual, this`quantumAtual, this`sobrecargaTotal, tarefas
      ensures Valid() && tarefas == old(tarefas)
      ensures Espelho(ws) && Encerradas(ws)
      ensures sobrecargaTotal == old(sobrecargaTotal) + SOBRECARGA * NaoFinais(ws) as real
      ensures Percorrido(EstadoQ(tarefas, vs, tarefas[0].tempoChegada, old(sobrecargaTotal), old(quantumAtual)), urgMax, ws)
    {
      tempoAtual := tarefas[0].tempoChegada;
      ghost var menor := menorTarefa;
      ws := Esvaziar(urgMax, vs);
      assert menorTarefa == menor;
    }

    /**
     * `self.tarefas.sort(key=lambda tarefa: tarefa.tempo_chegada)`: the
     * same tasks, stably sorted by arrival, in the state they were in.
     */
    method OrdenarPorChegada()
      requires Valid()
      modifies this`tarefas
      ensures Valid()
      ensures tarefas == OrdenarPor(old(tarefas), ChegadaDe)
      ensures |tarefas| == |old(tarefas)| && forall j :: 0 <= j < |tarefas| ==> tarefas[j] in old(tarefas)
      ensures old(Distintas(tarefas)) ==> Distintas(tarefas)
      ensures old(PrazosPresentes()) ==> PrazosPresentes()
      ensures Espelho(old(RetratosPorChegada()))
    {
      ghost var antes := tarefas;
      Ordenar();
      Reordenacao(quantum, quantumAtual, menorTarefa, antes, tarefas);
    }

    /** `self.tarefas.sort(key=tempo_chegada)`: a stable sort by arrival that leaves the tasks themselves alone. */
    method Ordenar()
      modifies this`tarefas
      ensures tarefas == OrdenarPor(old(tarefas), ChegadaDe)
      ensures Espelho(old(RetratosPorChegada()))
    {
      ghost var vs := RetratosPorChegada();
      tarefas := OrdenarPor(tarefas, ChegadaDe);
      assert Espelho(vs);
    }

    /** Before the loop, with every task queued, the invariant holds. */
    lemma Inicio(vs: seq<Vista>)
      requires Distintas(tarefas) && Espelho(vs) && Iniciais(vs) && PrazosPresentes()
      requires quantum > 0.0 && quantumAtual >= quantum
      ensures EmCurso(vs, tarefas, sobrecargaTotal)
    {
      InicioValido(vs, tarefas, tempoAtual, sobrecargaTotal, quantum, quantumAtual,
                   politica.ExigeDeadline());
    }

    /** The `while fila` loop of the quantum schedulers: it ends with the queue empty and the invariant kept. */
    method Esvaziar(urgMax: real, ghost vs: seq<Vista>) returns (ghost ws: seq<Vista>)
      requires tarefas != [] && politica.ComQuantum() && quantum > 0.0 && quantumAtual >= quantum
      requires Distintas(tarefas) && Espelho(vs) && Iniciais(vs) && PrazosPresentes()
      modifies this`tempoAtual, this`quantumAtual, this`sobrecargaTotal, tarefas
      ensures tarefas == old(tarefas) && quantumAtual >= quantum
      ensures Espelho(ws) && Encerradas(ws)
      ensures sobrecargaTotal == old(sobrecargaTotal) + SOBRECARGA * NaoFinais(ws) as real
      ensures Percorrido(EstadoQ(tarefas, vs, old(tempoAtual), old(sobrecargaTotal), old(quantumAtual)), urgMax, ws)
    {
      Inicio(vs);
      ghost var base := sobrecargaTotal;
      ghost var n;
      ws, n := Percorrer(urgMax, vs, base);
      Encerramento(ws, base);
      TerminaEm(EstadoQ(tarefas, vs, old(tempoAtual), old(sobrecargaTotal), old(quantumAtual)),
                PassosQ(tarefas, urgMax), FilaVazia, n,
                EstadoQ([], ws, tempoAtual, sobrecargaTotal, quantumAtual));
    }

    /**
     * The iterations of the loop, from every task queued until the queue
     * is empty: the state after them is that of `n` iterations of
     * `PassoQ`, and the invariant holds of it.
     */
    method Percorrer(urgMax: real, ghost vs: seq<Vista>, ghost base: real) returns (ghost ws: seq<Vista>, ghost n: nat)
      requires tarefas != [] && politica.ComQuantum() && EmCurso(vs, tarefas, base)
      modifies this`tempoAtual, this`quantumAtual, this`sobrecargaTotal, tarefas
      ensures EmCurso(ws, [], base) && tarefas == old(tarefas)
      ensures Iterar(EstadoQ(tarefas, vs, old(tempoAtual), old(sobrecargaTotal), old(quantumAtual)),
                     PassosQ(tarefas, urgMax), FilaVazia, n)
        == EstadoQ([], ws, tempoAtual, sobrecargaTotal, quantumAtual)
    {
      var pendentes := tarefas;
      ws, n := vs, 0;
      ghost var ts, horizonte := tarefas, MaiorChegadaDe(tarefas);
      ghost var e0 := EstadoQ(tarefas, vs, tempoAtual, sobrecargaTotal, quantumAtual);
      while pendentes != []
        invariant tarefas == ts && EmCurso(ws, pendentes, base)
        invariant Iterar(e0, PassosQ(ts, urgMax), FilaVazia, n) == EstadoQ(pendentes, ws, tempoAtual, sobrecargaTotal, quantumAtual)
        decreases Pendencia(ws, ts, pendentes, quantum), Ociosidade(tempoAtual, horizonte)
      {
        pendentes, ws := Avancar(pendentes, ws, base, urgMax, horizonte, e0, n);
        n := n + 1;
      }
    }

    /** One iteration of the loop, as the `n + 1`-th iteration of `PassoQ` from `e0`. */
    method Avancar(fila: seq<Tarefa>, ghost vs: seq<Vista>, ghost base: real, urgMax: real, ghost horizonte: real,
                   ghost e0: EstadoQ, ghost n: nat)
      returns (nova: seq<Tarefa>, ghost ws: seq<Vista>)
      requires fila != [] && politica.ComQuantum() && EmCurso(vs, fila, base)
      requires forall j :: 0 <= j < |tarefas| ==> tarefas[j].tempoChegada <= horizonte
      requires Iterar(e0, PassosQ(tarefas, urgMax), FilaVazia, n) == EstadoQ(fila, vs, tempoAtual, sobrecargaTotal, quantumAtual)
      modifies this`tempoAtual, this`quantumAtual, this`sobrecargaTotal, tarefas
      ensures tarefas == old(tarefas) && EmCurso(ws, nova, base)
      ensures Iterar(e0, PassosQ(tarefas, urgMax), FilaVazia, n + 1) == EstadoQ(nova, ws, tempoAtual, sobrecargaTotal, quantumAtual)
      ensures Pendencia(ws, tarefas, nova, quantum) < Pendencia(vs, tarefas, fila, quantum)
        || (Pendencia(ws, tarefas, nova, quantum) == Pendencia(vs, tarefas, fila, quantum)
            && Ociosidade(tempoAtual, horizonte) < Ociosidade(old(tempoAtual), horizonte))
    {
      EmCursoBem(vs, fila, base);
      ghost var antes := EstadoQ(fila, vs, tempoAtual, sobrecargaTotal, quantumAtual);
      nova, ws := Passo(fila, vs, base, urgMax, horizonte);
      IterarPassoQ(e0, tarefas, urgMax, n, antes, EstadoQ(nova, ws, tempoAtual, sobrecargaTotal, quantumAtual));
    }

    /** After the loop every task is consistent and done, and the overhead counts the non-final bursts. */
    lemma Encerramento(ws: seq<Vista>, base: real)
      requires EmCurso(ws, [], base)
      ensures Espelho(ws) && Encerradas(ws) && quantumAtual >= quantum
      ensures sobrecargaTotal == base + SOBRECARGA * NaoFinais(ws) as real
    {
      forall j | 0 <= j < |ws|
        ensures Consistente(ws[j]) && Encerrada(ws[j])
      {
        assert TarefaValida(ws[j], tarefas[j] in [], tempoAtual, politica.ExigeDeadline());
      }
    }

    // -------------------------------------------------------------------
    // The run-to-completion schedulers

    /** The snapshots of the tasks, as they stand, in the order a stable sort by arrival puts them. */
    ghost function RetratosPorChegada(): seq<Vista>
      reads this, tarefas
    {
      MesmosElementos(tarefas, OrdenarPor(tarefas, ChegadaDe));
      Retratos(OrdenarPor(tarefas, ChegadaDe))
    }

    /** The snapshots `vs` are those of the tasks, position by position. */
    ghost predicate Espelho(vs: seq<Vista>)
      reads this, tarefas
    {
      |vs| == |tarefas| && forall j :: 0 <= j < |tarefas| ==> vs[j] == tarefas[j].Retrato()
    }

    /**
     * Runs `tarefa` to completion from `inicio`: one burst of its whole
     * duration, at whose end it is finished and the clock stands; its wait
     * and its response are both the delay from its arrival to `inicio`.
     */
    method ExecutarInteira(tarefa: Tarefa, inicio: real)
      modifies tarefa, this`tempoAtual
      ensures tarefa.Retrato() == ExecucaoInteira(old(tarefa.Retrato()), inicio)
      ensures tempoAtual == inicio + tarefa.duracao
    {
      tarefa.tempoInicio := Some(inicio);
      tarefa.tempoInicioExecucaoAtual := tarefa.tempoInicio;
      tempoAtual := inicio;
      tempoAtual := tempoAtual + tarefa.duracao;
      tarefa.tempoFinalExecucaoAtual := Some(tempoAtual);
      tarefa.temposExecucao := tarefa.temposExecucao + [Burst(inicio, tempoAtual)];
      tarefa.tempoFinal := Some(tempoAtual);
      tarefa.tempoEmEspera := inicio - tarefa.tempoChegada;
      tarefa.tempoDeResposta := Some(tarefa.tempoEmEspera);
    }

    /**
     * FIFO's `escalonar`: the tasks sorted by arrival, the clock set to the
     * first arrival, then every task run to completion in that order.  No
     * overhead is charged.
     */
    method EscalonarFIFO()
      requires Valid() && Distintas(tarefas)
      modifies this`tarefas, this`tempoAtual, tarefas
      ensures Valid()
      ensures tarefas == OrdenarPor(old(tarefas), ChegadaDe)
      ensures tarefas != [] ==>
        && Espelho(ExecucaoFIFO(old(RetratosPorChegada()), tarefas[0].tempoChegada))
        && tempoAtual == RelogioFIFO(old(RetratosPorChegada()), tarefas[0].tempoChegada)
      ensures tarefas == [] ==> tempoAtual == old(tempoAtual)
      ensures sobrecargaTotal == old(sobrecargaTotal)
    {
      ghost var vs := RetratosPorChegada();
      OrdenarPorChegada();
      if |tarefas| > 0 {
        RodarFIFO(vs);
      }
    }

    /** The body of FIFO's `if`: the clock set to the first arrival, then the loop. */
    method RodarFIFO(ghost vs: seq<Vista>)
      requires Valid() && tarefas != [] && Distintas(tarefas) && Espelho(vs)
      modifies this`tempoAtual, tarefas
      ensures Valid() && tarefas == old(tarefas) && sobrecargaTotal == old(sobrecargaTotal)
      ensures Espelho(ExecucaoFIFO(vs, tarefas[0].tempoChegada))
      ensures tempoAtual == RelogioFIFO(vs, tarefas[0].tempoChegada)
    {
      ghost var menor, lista := menorTarefa, tarefas;
      tempoAtual := tarefas[0].tempoChegada;
      ExecutarEmOrdem(vs);
      assert menorTarefa == menor && tarefas == lista;
    }

    /**
     * FIFO's `for` loop after `i` iterations, from the snapshots `vs` and
     * the clock `relogio` before it: the first `i` tasks have been run and
     * the others are untouched.
     */
    ghost predicate FIFOAte(vs: seq<Vista>, relogio: real, i: nat)
      reads this, tarefas
    {
      && i <= |vs| == |tarefas|
      && tempoAtual == RelogioFIFO(vs[..i], relogio)
      && (forall j :: 0 <= j < i ==> tarefas[j].Retrato() == ExecucaoFIFO(vs[..i], relogio)[j])
      && (forall j :: i <= j < |tarefas| ==> tarefas[j].Retrato() == vs[j])
    }

    /** FIFO's `for` loop: each task in list order, started once both it and the processor are ready. */
    method ExecutarEmOrdem(ghost vs: seq<Vista>)
      requires Distintas(tarefas) && Espelho(vs)
      modifies this`tempoAtual, tarefas
      ensures Espelho(ExecucaoFIFO(vs, old(tempoAtual)))
      ensures tempoAtual == RelogioFIFO(vs, old(tempoAtual))
    {
      ghost var relogio := tempoAtual;
      assert vs[..0] == [];
      for i := 0 to |tarefas|
        invariant FIFOAte(vs, relogio, i)
      {
        ExecutarFIFO(i, vs, relogio);
      }
      assert vs[..|tarefas|] == vs;
    }

    /** One iteration of FIFO's loop: the `i`-th task runs to completion. */
    method ExecutarFIFO(i: nat, ghost vs: seq<Vista>, ghost relogio: real)
      requires i < |tarefas| && Distintas(tarefas) && FIFOAte(vs, relogio, i)
      modifies this`tempoAtual, tarefas[i]
      ensures FIFOAte(vs, relogio, i + 1)
    {
      var tarefa := tarefas[i];
      ExecucaoFIFOPasso(vs, relogio, i);
      ExecutarInteira(tarefa, Max(tempoAtual, tarefa.tempoChegada));
      assert forall j :: 0 <= j < |tarefas| && j != i ==> tarefas[j] != tarefa;
    }

    /**
     * SJF's `escalonar`: the tasks sorted by arrival, the clock set to the
     * first arrival, then, while tasks are queued, the first arrived one
     * with the shortest duration is dequeued and run to completion.  As
     * written, when no queued task has arrived the task of the previous
     * iteration is run again, so a task may end up with several bursts;
     * each burst still runs the whole duration after the arrival.  Positive
     * durations are needed for the loop to end.
     */
    method EscalonarSJF() returns (ghost ws: seq<Vista>)
      requires Valid() && Distintas(tarefas)
      requires forall j :: 0 <= j < |tarefas| ==> tarefas[j].duracao > 0.0
      modifies this`tarefas, this`tempoAtual, tarefas
      ensures Valid()
      ensures tarefas == OrdenarPor(old(tarefas), ChegadaDe)
      ensures Espelho(ws) && Reexecutadas(old(RetratosPorChegada()), ws)
      ensures tarefas != [] ==>
        PercorridoS(EstadoS(tarefas, old(RetratosPorChegada()), tarefas[0].tempoChegada, None),
                    tarefas, ws, tempoAtual)
      ensures tarefas == [] ==> tempoAtual == old(tempoAtual)
      ensures sobrecargaTotal == old(sobrecargaTotal)
    {
      ghost var vs := RetratosPorChegada();
      OrdenarPorChegada();
      ws := vs;
      if |tarefas| > 0 {
        ws := RodarSJF(vs);
      }
    }

    /** The body of SJF's `if`: the clock set to the first arrival, then the loop. */
    method RodarSJF(ghost vs: seq<Vista>) returns (ghost ws: seq<Vista>)
      requires Valid() && tarefas != [] && Distintas(tarefas) && Espelho(vs)
      requires forall j :: 0 <= j < |tarefas| ==> tarefas[j].duracao > 0.0
      modifies this`tempoAtual, tarefas
      ensures Valid() && tarefas == old(tarefas) && sobrecargaTotal == old(sobrecargaTotal)
      ensures Espelho(ws) && Reexecutadas(vs, ws)
      ensures PercorridoS(EstadoS(tarefas, vs, tarefas[0].tempoChegada, None), tarefas, ws, tempoAtual)
    {
      tempoAtual := tarefas[0].tempoChegada;
      ws := CorrerSJF(vs);
    }

    /** SJF's `while fila` loop, from the snapshots `v0s` of the tasks. */
    method CorrerSJF(ghost v0s: seq<Vista>) returns (ghost ws: seq<Vista>)
      requires tarefas != [] && Distintas(tarefas) && tarefas[0].tempoChegada <= tempoAtual && Espelho(v0s)
      requires forall j :: 0 <= j < |tarefas| ==> tarefas[j].duracao > 0.0
      modifies this`tempoAtual, tarefas
      ensures tarefas == old(tarefas)
      ensures unchanged(this`menorTarefa, this`quantumAtual, this`sobrecargaTotal)
      ensures Espelho(ws) && Reexecutadas(v0s, ws)
      ensures PercorridoS(EstadoS(tarefas, v0s, old(tempoAtual), None), tarefas, ws, tempoAtual)
    {
      ghost var vs := v0s;
      ghost var horizonte := MaiorChegadaDe(tarefas);
      ghost var passo := tarefas[PrimeiroMinimo(tarefas, DuracaoDe)].duracao;
      assert forall j :: 0 <= j < |tarefas| ==> tarefas[j].duracao >= passo by {
        forall j | 0 <= j < |tarefas| ensures tarefas[j].duracao >= passo {
          assert DuracaoDe(tarefas[j]) >= passo;
        }
      }
      SequenciaInicial(vs, tarefas, false);
      ws := EsvaziarSJF(v0s, horizonte, passo);
    }

    /** The `while fila` loop itself, from the whole task list as the queue. */
    method EsvaziarSJF(ghost v0s: seq<Vista>, ghost horizonte: real, ghost passo: real) returns (ghost ws: seq<Vista>)
      requires EmCursoSJF(v0s, v0s, tarefas, None, horizonte, passo)
      modifies this`tempoAtual, tarefas
      ensures tarefas == old(tarefas)
      ensures unchanged(this`menorTarefa, this`quantumAtual, this`sobrecargaTotal)
      ensures Espelho(ws) && Reexecutadas(v0s, ws)
      ensures PercorridoS(EstadoS(tarefas, v0s, old(tempoAtual), None), tarefas, ws, tempoAtual)
    {
      ghost var vs := v0s;
      var fila := tarefas;
      var tarefa: Option<Tarefa> := None;
      ghost var e0, n := EstadoS(tarefas, v0s, tempoAtual, None), 0;
      while fila != []
        invariant tarefas == old(tarefas) && EmCursoSJF(v0s, vs, fila, tarefa, horizonte, passo)
        invariant unchanged(this`menorTarefa, this`quantumAtual, this`sobrecargaTotal)
        invariant IterarS(e0, tarefas, n) == EstadoS(fila, vs, tempoAtual, tarefa)
        decreases |fila|, OciosidadeEm(tempoAtual, horizonte, passo)
      {
        EmCursoSJFBem(v0s, vs, fila, tarefa, horizonte, passo);
        fila, tarefa, vs := AvancarSJF(fila, tarefa, v0s, vs, horizonte, passo);
        n := n + 1;
      }
      TerminadoSJF(v0s, vs, tarefa, horizonte, passo);
      FimSJF(e0, n, vs, tarefa);
      ws := vs;
    }

    /** Iterations reaching an empty queue, with the snapshots those of the tasks, end SJF's run. */
    lemma FimSJF(e0: EstadoS, n: nat, vs: seq<Vista>, tarefa: Option<Tarefa>)
      requires IterarS(e0, tarefas, n) == EstadoS([], vs, tempoAtual, tarefa)
      ensures PercorridoS(e0, tarefas, vs, tempoAtual)
    {
      assert PercorreS(e0, tarefas, n, vs, tempoAtual);
    }

    /** With the queue empty, every task has run once more, to completion. */
    lemma TerminadoSJF(v0s: seq<Vista>, vs: seq<Vista>, tarefa: Option<Tarefa>, horizonte: real, passo: real)
      requires EmCursoSJF(v0s, vs, [], tarefa, horizonte, passo)
      ensures Reexecutadas(v0s, vs)
    {
      SequenciaFinal(v0s, vs, tarefas, false);
    }

    /** One iteration of SJF's loop, seen from the loop: its invariant is kept and its measure drops. */
    method AvancarSJF(fila: seq<Tarefa>, tarefa: Option<Tarefa>, ghost v0s: seq<Vista>, ghost vs: seq<Vista>,
                      ghost horizonte: real, ghost passo: real)
      returns (nova: seq<Tarefa>, proxima: Option<Tarefa>, ghost ws: seq<Vista>)
      requires fila != [] && EmCursoSJF(v0s, vs, fila, tarefa, horizonte, passo)
      requires BemS(EstadoS(fila, vs, tempoAtual, tarefa), tarefas)
      modifies this`tempoAtual, tarefas
      ensures unchanged(this`menorTarefa, this`quantumAtual, this`sobrecargaTotal)
      ensures tarefas == old(tarefas) && EmCursoSJF(v0s, ws, nova, proxima, horizonte, passo) && proxima.Some?
      ensures EstadoS(nova, ws, tempoAtual, proxima) == PassoS(EstadoS(fila, vs, old(tempoAtual), tarefa), tarefas)
      ensures var c := Chegaram(fila, old(tempoAtual));
        && (c != [] ==> proxima == Some(c[SelecaoSJF(old(Retratos(c)))]) && nova == Remover(fila, proxima.value))
        && (c == [] ==> proxima == tarefa && nova == fila)
      ensures proxima.value.Retrato()
        == ExecucaoInteira(old(proxima.value.Retrato()), Max(old(tempoAtual), proxima.value.tempoChegada))
      ensures tempoAtual == Max(old(tempoAtual), proxima.value.tempoChegada) + proxima.value.duracao
      ensures |nova| < |fila|
        || (nova == fila && OciosidadeEm(tempoAtual, horizonte, passo) < OciosidadeEm(old(tempoAtual), horizonte, passo))
    {
      nova, proxima, ws := PassoSJF(fila, tarefa, v0s, vs, horizonte, passo);
      if nova == fila {
        OciosidadeEmDecresce(old(tempoAtual), tempoAtual, horizonte, passo);
      }
    }

    /**
     * SJF's loop state, from the snapshots `v0s` before the loop and `vs`
     * now: the run-to-completion invariant, and the previous iteration's
     * task already off the queue (there is none only before the first
     * iteration).  `passo` and `horizonte` bound the durations and the
     * arrivals for the loop's termination measure.
     */
    ghost predicate EmCursoSJF(v0s: seq<Vista>, vs: seq<Vista>, fila: seq<Tarefa>, tarefa: Option<Tarefa>,
                               horizonte: real, passo: real)
      reads this, tarefas
    {
      && Espelho(vs) && Sequencia(v0s, vs, tarefas, fila, false)
      && (tarefa.Some? ==> tarefa.value in tarefas && tarefa.value !in fila)
      && (tarefa.None? ==> fila == tarefas != [] && tarefas[0].tempoChegada <= tempoAtual)
      && passo > 0.0 && Acotadas(tarefas, horizonte, passo)
    }

    /** SJF's loop invariant makes its state well formed, and the arrived tasks' snapshots are taken out of `vs`. */
    lemma EmCursoSJFBem(v0s: seq<Vista>, vs: seq<Vista>, fila: seq<Tarefa>, tarefa: Option<Tarefa>,
                        horizonte: real, passo: real)
      requires EmCursoSJF(v0s, vs, fila, tarefa, horizonte, passo)
      ensures BemS(EstadoS(fila, vs, tempoAtual, tarefa), tarefas)
      ensures Retratos(Chegaram(fila, tempoAtual)) == VistasDe(Chegaram(fila, tempoAtual), tarefas, vs)
    {
      FilaNaLista(fila, tarefas);
      ChegadasConhecidas(fila, tarefas, vs, tempoAtual);
      EspelhoFixos(vs);
      if tarefa.None? {
        assert Chegaram(fila, tempoAtual) == [fila[0]] + Chegaram(fila[1..], tempoAtual);
      }
    }

    /** Snapshots of the tasks carry the tasks' fixed fields. */
    lemma EspelhoFixos(vs: seq<Vista>)
      requires Espelho(vs)
      ensures Fixos(vs, tarefas)
    {
      forall j | 0 <= j < |tarefas|
        ensures vs[j].chegada == tarefas[j].tempoChegada && vs[j].duracao == tarefas[j].duracao
        ensures vs[j].prioridade == tarefas[j].prioridade && vs[j].deadline == tarefas[j].deadline
      {
        assert vs[j] == tarefas[j].Retrato();
      }
    }

    /**
     * One iteration of SJF's loop: the first arrived task with the shortest
     * duration leaves the queue and runs to completion; when no queued task
     * has arrived, the previous iteration's `tarefa` runs again.
     */
    method PassoSJF(fila: seq<Tarefa>, tarefa: Option<Tarefa>, ghost v0s: seq<Vista>, ghost vs: seq<Vista>,
                    ghost horizonte: real, ghost passo: real)
      returns (nova: seq<Tarefa>, proxima: Option<Tarefa>, ghost ws: seq<Vista>)
      requires fila != [] && EmCursoSJF(v0s, vs, fila, tarefa, horizonte, passo)
      requires BemS(EstadoS(fila, vs, tempoAtual, tarefa), tarefas)
      modifies this`tempoAtual, tarefas
      ensures unchanged(this`menorTarefa, this`quantumAtual, this`sobrecargaTotal)
      ensures tarefas == old(tarefas) && EmCursoSJF(v0s, ws, nova, proxima, horizonte, passo) && proxima.Some?
      ensures EstadoS(nova, ws, tempoAtual, proxima) == PassoS(EstadoS(fila, vs, old(tempoAtual), tarefa), tarefas)
      ensures var c := Chegaram(fila, old(tempoAtual));
        && (c != [] ==> proxima == Some(c[SelecaoSJF(old(Retratos(c)))]) && nova == Remover(fila, proxima.value))
        && (c == [] ==> proxima == tarefa && nova == fila)
      ensures proxima.value.Retrato()
        == ExecucaoInteira(old(proxima.value.Retrato()), Max(old(tempoAtual), proxima.value.tempoChegada))
      ensures tempoAtual == Max(old(tempoAtual), proxima.value.tempoChegada) + proxima.value.duracao
      ensures nova != fila ==> |nova| < |fila|
      ensures nova == fila ==> old(tempoAtual) < horizonte && tempoAtual >= old(tempoAtual) + passo
    {
      var chegadas := Chegaram(fila, tempoAtual);
      if chegadas != [] {
        var escolhida;
        nova, escolhida, ws := RetirarSJF(fila, tarefa, v0s, vs, horizonte, passo);
        proxima := Some(escolhida);
      } else {
        ws := RepetirSJF(fila, tarefa, v0s, vs, horizonte, passo);
        nova, proxima := fila, tarefa;
      }
    }

    /** SJF with some queued task arrived: the first arrived one with the shortest duration leaves the queue and runs. */
    method RetirarSJF(fila: seq<Tarefa>, tarefa: Option<Tarefa>, ghost v0s: seq<Vista>, ghost vs: seq<Vista>,
                      ghost horizonte: real, ghost passo: real)
      returns (nova: seq<Tarefa>, escolhida: Tarefa, ghost ws: seq<Vista>)
      requires fila != [] && EmCursoSJF(v0s, vs, fila, tarefa, horizonte, passo) && Chegaram(fila, tempoAtual) != []
      requires BemS(EstadoS(fila, vs, tempoAtual, tarefa), tarefas)
      modifies this`tempoAtual, tarefas
      ensures unchanged(this`menorTarefa, this`quantumAtual, this`sobrecargaTotal)
      ensures tarefas == old(tarefas) && EmCursoSJF(v0s, ws, nova, Some(escolhida), horizonte, passo)
      ensures var c := Chegaram(fila, old(tempoAtual)); escolhida == c[SelecaoSJF(old(Retratos(c)))]
      ensures nova == Remover(fila, escolhida) && |nova| < |fila|
      ensures EstadoS(nova, ws, tempoAtual, Some(escolhida))
        == PassoS(EstadoS(fila, vs, old(tempoAtual), tarefa), tarefas)
      ensures escolhida.Retrato() == ExecucaoInteira(old(escolhida.Retrato()), Max(old(tempoAtual), escolhida.tempoChegada))
      ensures tempoAtual == Max(old(tempoAtual), escolhida.tempoChegada) + escolhida.duracao
    {
      EmCursoSJFBem(v0s, vs, fila, tarefa, horizonte, passo);
      ghost var e, ts := EstadoS(fila, vs, tempoAtual, tarefa), tarefas;
      var chegadas := Chegaram(fila, tempoAtual);
      var k := SelecaoSJF(Retratos(chegadas));
      escolhida := chegadas[k];
      NaLista(fila, tarefas, escolhida);
      nova, ws := Retirar(fila, escolhida, Max(tempoAtual, escolhida.tempoChegada), v0s, vs, false);
      PassoSRetirada(e, ts, k, nova, ws, tempoAtual);
    }

    /**
     * SJF with no queued task arrived: the previous iteration's task, already
     * off the queue, runs again from the clock or its arrival, which moves
     * the clock, still before `horizonte`, on by at least `passo`.
     */
    method RepetirSJF(fila: seq<Tarefa>, tarefa: Option<Tarefa>, ghost v0s: seq<Vista>, ghost vs: seq<Vista>,
                      ghost horizonte: real, ghost passo: real)
      returns (ghost ws: seq<Vista>)
      requires fila != [] && EmCursoSJF(v0s, vs, fila, tarefa, horizonte, passo) && Chegaram(fila, tempoAtual) == []
      requires BemS(EstadoS(fila, vs, tempoAtual, tarefa), tarefas)
      modifies this`tempoAtual, tarefas
      ensures unchanged(this`menorTarefa, this`quantumAtual, this`sobrecargaTotal)
      ensures tarefa.Some? && tarefas == old(tarefas) && EmCursoSJF(v0s, ws, fila, tarefa, horizonte, passo)
      ensures EstadoS(fila, ws, tempoAtual, tarefa) == PassoS(EstadoS(fila, vs, old(tempoAtual), tarefa), tarefas)
      ensures tarefa.value.Retrato()
        == ExecucaoInteira(old(tarefa.value.Retrato()), Max(old(tempoAtual), tarefa.value.tempoChegada))
      ensures tempoAtual == Max(old(tempoAtual), tarefa.value.tempoChegada) + tarefa.value.duracao
      ensures old(tempoAtual) < horizonte && tempoAtual >= old(tempoAtual) + passo
    {
      EmCursoSJFBem(v0s, vs, fila, tarefa, horizonte, passo);
      ghost var e, ts := EstadoS(fila, vs, tempoAtual, tarefa), tarefas;
      assert fila[0] !in Chegaram(fila, tempoAtual);
      var escolhida := tarefa.value;
      NaLista(fila, tarefas, fila[0]);
      ws := Repetir(fila, escolhida, Max(tempoAtual, escolhida.tempoChegada), v0s, vs);
      PassoSRepetida(e, ts, ws, tempoAtual);
    }

    /**
     * Non-preemptive priority's `escalonar`: the tasks sorted by arrival,
     * the clock set to the first arrival, then, while tasks are queued, the
     * first arrived one with the LARGEST `prioridade` value is dequeued and
     * run to completion from the clock; when none has arrived the clock
     * moves on by one unit.  Every task runs exactly once.
     */
    method EscalonarPrioridadeNP() returns (ghost ws: seq<Vista>)
      requires Valid() && Distintas(tarefas)
      modifies this`tarefas, this`tempoAtual, tarefas
      ensures Valid()
      ensures tarefas == OrdenarPor(old(tarefas), ChegadaDe)
      ensures Espelho(ws) && ExecutadasUmaVez(old(RetratosPorChegada()), ws)
      ensures tarefas != [] ==>
        PercorridoN(EstadoNP(tarefas, old(RetratosPorChegada()), tarefas[0].tempoChegada),
                    tarefas, ws, tempoAtual)
      ensures tarefas == [] ==> tempoAtual == old(tempoAtual)
      ensures sobrecargaTotal == old(sobrecargaTotal)
    {
      ghost var vs := RetratosPorChegada();
      OrdenarPorChegada();
      ws := vs;
      if |tarefas| > 0 {
        ws := RodarPrioridadeNP(vs);
      }
    }

    /** The body of non-preemptive priority's `if`: the clock set to the first arrival, then the loop. */
    method RodarPrioridadeNP(ghost vs: seq<Vista>) returns (ghost ws: seq<Vista>)
      requires Valid() && tarefas != [] && Distintas(tarefas) && Espelho(vs)
      modifies this`tempoAtual, tarefas
      ensures Valid() && tarefas == old(tarefas) && sobrecargaTotal == old(sobrecargaTotal)
      ensures Espelho(ws) && ExecutadasUmaVez(vs, ws)
      ensures PercorridoN(EstadoNP(tarefas, vs, tarefas[0].tempoChegada), tarefas, ws, tempoAtual)
    {
      tempoAtual := tarefas[0].tempoChegada;
      ws := CorrerPrioridadeNP(vs);
    }

    /** Non-preemptive priority's `while fila` loop, from the snapshots `v0s` of the tasks. */
    method CorrerPrioridadeNP(ghost v0s: seq<Vista>) returns (ghost ws: seq<Vista>)
      requires tarefas != [] && Distintas(tarefas) && Espelho(v0s)
      modifies this`tempoAtual, tarefas
      ensures unchanged(this`menorTarefa, this`quantumAtual, this`sobrecargaTotal)
      ensures tarefas == old(tarefas)
      ensures Espelho(ws) && ExecutadasUmaVez(v0s, ws)
      ensures PercorridoN(EstadoNP(tarefas, v0s, old(tempoAtual)), tarefas, ws, tempoAtual)
    {
      ghost var vs := v0s;
      ghost var horizonte := MaiorChegadaDe(tarefas);
      var fila := tarefas;
      SequenciaInicial(vs, tarefas, true);
      ghost var e0, n := EstadoNP(tarefas, v0s, tempoAtual), 0;
      while fila != []
        invariant tarefas == old(tarefas) && EmCursoNP(v0s, vs, fila, horizonte)
        invariant unchanged(this`menorTarefa, this`quantumAtual, this`sobrecargaTotal)
        invariant IterarNP(e0, tarefas, n) == EstadoNP(fila, vs, tempoAtual)
        decreases |fila|, Ociosidade(tempoAtual, horizonte)
      {
        EmCursoNPBem(v0s, vs, fila, horizonte);
        fila, vs := AvancarPrioridadeNP(fila, v0s, vs, horizonte);
        n := n + 1;
      }
      TerminadoNP(v0s, vs, horizonte);
      FimNP(e0, n, vs);
      ws := vs;
    }

    /** Iterations reaching an empty queue, with the snapshots those of the tasks, end the run. */
    lemma FimNP(e0: EstadoNP, n: nat, vs: seq<Vista>)
      requires IterarNP(e0, tarefas, n) == EstadoNP([], vs, tempoAtual)
      ensures PercorridoN(e0, tarefas, vs, tempoAtual)
    {
    }

    /** The loop invariant makes the state well formed, and the arrived tasks' snapshots are taken out of `vs`. */
    lemma EmCursoNPBem(v0s: seq<Vista>, vs: seq<Vista>, fila: seq<Tarefa>, horizonte: real)
      requires EmCursoNP(v0s, vs, fila, horizonte)
      ensures BemNP(EstadoNP(fila, vs, tempoAtual), tarefas)
      ensures Retratos(Chegaram(fila, tempoAtual)) == VistasDe(Chegaram(fila, tempoAtual), tarefas, vs)
    {
      FilaNaLista(fila, tarefas);
      ChegadasConhecidas(fila, tarefas, vs, tempoAtual);
    }

    /**
     * Non-preemptive priority's loop state: the run-to-completion
     * invariant, and every arrival by `horizonte` for the termination
     * measure.
     */
    ghost predicate EmCursoNP(v0s: seq<Vista>, vs: seq<Vista>, fila: seq<Tarefa>, horizonte: real)
      reads this, tarefas
    {
      Espelho(vs) && Sequencia(v0s, vs, tarefas, fila, true) && ChegamAte(tarefas, horizonte)
    }

    /** With the queue empty, every task has run exactly once more, to completion. */
    lemma TerminadoNP(v0s: seq<Vista>, vs: seq<Vista>, horizonte: real)
      requires EmCursoNP(v0s, vs, [], horizonte)
      ensures ExecutadasUmaVez(v0s, vs)
    {
      SequenciaFinal(v0s, vs, tarefas, true);
    }

    /** One iteration of the loop, seen from the loop: its invariant is kept and its measure drops. */
    method AvancarPrioridadeNP(fila: seq<Tarefa>, ghost v0s: seq<Vista>, ghost vs: seq<Vista>, ghost horizonte: real)
      returns (nova: seq<Tarefa>, ghost ws: seq<Vista>)
      requires fila != [] && EmCursoNP(v0s, vs, fila, horizonte)
      requires BemNP(EstadoNP(fila, vs, tempoAtual), tarefas)
      modifies this`tempoAtual, tarefas
      ensures unchanged(this`menorTarefa, this`quantumAtual, this`sobrecargaTotal)
      ensures tarefas == old(tarefas) && EmCursoNP(v0s, ws, nova, horizonte)
      ensures var c := Chegaram(fila, old(tempoAtual));
        && (c == [] ==> nova == fila && ws == vs && tempoAtual == old(tempoAtual) + 1.0)
        && (c != [] ==>
              var t := c[SelecaoPrioridadeNP(old(Retratos(c)))];
              && nova == Remover(fila, t)
              && t.Retrato() == ExecucaoInteira(old(t.Retrato()), old(tempoAtual))
              && tempoAtual == old(tempoAtual) + t.duracao)
      ensures EstadoNP(nova, ws, tempoAtual) == PassoNP(EstadoNP(fila, vs, old(tempoAtual)), tarefas)
      ensures |nova| < |fila| || (nova == fila && Ociosidade(tempoAtual, horizonte) < Ociosidade(old(tempoAtual), horizonte))
    {
      nova, ws := PassoPrioridadeNP(fila, v0s, vs, horizonte);
    }

    /**
     * One iteration of non-preemptive priority's loop: with nothing
     * arrived the clock moves on by one unit; otherwise the first arrived
     * task with the largest `prioridade` leaves the queue and runs to
     * completion from the clock.
     */
    method PassoPrioridadeNP(fila: seq<Tarefa>, ghost v0s: seq<Vista>, ghost vs: seq<Vista>, ghost horizonte: real)
      returns (nova: seq<Tarefa>, ghost ws: seq<Vista>)
      requires fila != [] && Espelho(vs) && Sequencia(v0s, vs, tarefas, fila, true) && ChegamAte(tarefas, horizonte)
      requires BemNP(EstadoNP(fila, vs, tempoAtual), tarefas)
      modifies this`tempoAtual, tarefas
      ensures unchanged(this`menorTarefa, this`quantumAtual, this`sobrecargaTotal)
      ensures tarefas == old(tarefas) && Espelho(ws) && Sequencia(v0s, ws, tarefas, nova, true)
      ensures var c := Chegaram(fila, old(tempoAtual));
        && (c == [] ==> nova == fila && ws == vs && tempoAtual == old(tempoAtual) + 1.0)
        && (c != [] ==>
              var t := c[SelecaoPrioridadeNP(old(Retratos(c)))];
              && nova == Remover(fila, t)
              && t.Retrato() == ExecucaoInteira(old(t.Retrato()), old(tempoAtual))
              && tempoAtual == old(tempoAtual) + t.duracao)
      ensures EstadoNP(nova, ws, tempoAtual) == PassoNP(EstadoNP(fila, vs, old(tempoAtual)), tarefas)
      ensures |nova| < |fila| || (nova == fila && Ociosidade(tempoAtual, horizonte) < Ociosidade(old(tempoAtual), horizonte))
    {
      var chegadas := Chegaram(fila, tempoAtual);
      if chegadas == [] {
        EsperaDecresce(fila, tarefas, tempoAtual, horizonte);
        tempoAtual := tempoAtual + 1.0;
        nova, ws := fila, vs;
        return;
      }
      EmCursoNPBem(v0s, vs, fila, horizonte);
      ghost var e, ts := EstadoNP(fila, vs, tempoAtual), tarefas;
      var k := SelecaoPrioridadeNP(Retratos(chegadas));
      var escolhida := chegadas[k];
      NaLista(fila, tarefas, escolhida);
      nova, ws := Retirar(fila, escolhida, tempoAtual, v0s, vs, true);
      PassoNPRetirada(e, ts, k, nova, ws, tempoAtual);
    }

    /**
     * Takes `tarefa` off the queue and runs it to completion from `inicio`,
     * keeping the loop invariant of SJF and non-preemptive priority.
     */
    method Retirar(fila: seq<Tarefa>, tarefa: Tarefa, inicio: real, ghost v0s: seq<Vista>, ghost vs: seq<Vista>,
                   ghost unica: bool)
      returns (nova: seq<Tarefa>, ghost ws: seq<Vista>)
      requires tarefa in fila && tarefa in tarefas && inicio >= tarefa.tempoChegada
      requires Espelho(vs) && Sequencia(v0s, vs, tarefas, fila, unica)
      modifies this`tempoAtual, tarefa
      ensures unchanged(this`menorTarefa, this`quantumAtual, this`sobrecargaTotal)
      ensures nova == Remover(fila, tarefa) && |nova| < |fila| && tarefa !in nova
      ensures tarefas == old(tarefas) && Espelho(ws) && Sequencia(v0s, ws, tarefas, nova, unica)
      ensures ws == vs[Posicao(tarefas, tarefa) := ExecucaoInteira(vs[Posicao(tarefas, tarefa)], inicio)]
      ensures tarefa.Retrato() == ExecucaoInteira(old(tarefa.Retrato()), inicio)
      ensures tempoAtual == inicio + tarefa.duracao
    {
      nova := Remover(fila, tarefa);
      ghost var i := Posicao(tarefas, tarefa);
      RetiradaPreserva(v0s, vs, tarefas, fila, i, inicio, unica);
      ws := ExecutarRetratada(tarefa, i, inicio, vs);
    }

    /** SJF's rerun of `tarefa`, already off the queue, from `inicio`, keeping the loop invariant. */
    method Repetir(fila: seq<Tarefa>, tarefa: Tarefa, inicio: real, ghost v0s: seq<Vista>, ghost vs: seq<Vista>)
      returns (ghost ws: seq<Vista>)
      requires tarefa in tarefas && tarefa !in fila && inicio >= tarefa.tempoChegada
      requires Espelho(vs) && Sequencia(v0s, vs, tarefas, fila, false)
      modifies this`tempoAtual, tarefa
      ensures unchanged(this`menorTarefa, this`quantumAtual, this`sobrecargaTotal)
      ensures tarefas == old(tarefas) && Espelho(ws) && Sequencia(v0s, ws, tarefas, fila, false)
      ensures ws == vs[Posicao(tarefas, tarefa) := ExecucaoInteira(vs[Posicao(tarefas, tarefa)], inicio)]
      ensures tarefa.Retrato() == ExecucaoInteira(old(tarefa.Retrato()), inicio)
      ensures tempoAtual == inicio + tarefa.duracao
    {
      ghost var i := Posicao(tarefas, tarefa);
      RepeticaoPreserva(v0s, vs, tarefas, fila, i, inicio);
      ws := ExecutarRetratada(tarefa, i, inicio, vs);
    }

    /**
     * Runs the `i`-th task to completion from `inicio`, and gives the
     * snapshots of the tasks afterwards.
     */
    method ExecutarRetratada(tarefa: Tarefa, ghost i: nat, inicio: real, ghost vs: seq<Vista>)
      returns (ghost ws: seq<Vista>)
      requires i < |tarefas| && tarefas[i] == tarefa && Distintas(tarefas) && Espelho(vs)
      modifies this`tempoAtual, tarefa
      ensures ws == vs[i := ExecucaoInteira(vs[i], inicio)] && Espelho(ws)
      ensures tarefa.Retrato() == ExecucaoInteira(old(tarefa.Retrato()), inicio)
      ensures tempoAtual == inicio + tarefa.duracao
    {
      ExecutarInteira(tarefa, inicio);
      ws := vs[i := ExecucaoInteira(vs[i], inicio)];
      assert forall j :: 0 <= j < |tarefas| && j != i ==> tarefas[j] != tarefa;
    }
  }

  /** The shortest-task tracker after adding the tasks of `s` one by one. */
  function MenorPorAdicao(s: seq<Tarefa>): Option<Tarefa> {
    if s == [] then None
    else
      var m := MenorPorAdicao(s[..|s| - 1]);
      var t := s[|s| - 1];
      if m.None? || t.duracao < m.value.duracao then Some(t) else m
  }

  function DuracaoDe(t: Tarefa): real { t.duracao }

  /** The tracker holds the first task with the shortest duration. */
  lemma MenorPorAdicaoPrimeiro(s: seq<Tarefa>)
    ensures s == [] <==> MenorPorAdicao(s).None?
    ensures s != [] ==> MenorPorAdicao(s) == Some(s[PrimeiroMinimo(s, DuracaoDe)])
  {
    if s != [] {
      var i := IndiceDoMenor(s);
      PrimeiroMinimoUnico(s, i);
    }
  }

  /** Where the tracker's task sits: no task is shorter, and every task before it is longer. */
  lemma {:induction false} IndiceDoMenor(s: seq<Tarefa>) returns (i: nat)
    requires s != []
    ensures i < |s| && MenorPorAdicao(s) == Some(s[i])
    ensures forall j :: 0 <= j < |s| ==> s[i].duracao <= s[j].duracao
    ensures forall j :: 0 <= j < i ==> s[i].duracao < s[j].duracao
  {
    var n := |s| - 1;
    var p := s[..n];
    if p == [] {
      i := 0;
    } else {
      var k := IndiceDoMenor(p);
      assert forall j :: 0 <= j < n ==> s[j] == p[j];
      if s[n].duracao < p[k].duracao {
        i := n;
      } else {
        i := k;
      }
    }
  }

  /** The first task with the shortest duration is the one no task is shorter than and no earlier task equals. */
  lemma PrimeiroMinimoUnico(s: seq<Tarefa>, i: nat)
    requires i < |s|
    requires forall j :: 0 <= j < |s| ==> s[i].duracao <= s[j].duracao
    requires forall j :: 0 <= j < i ==> s[i].duracao < s[j].duracao
    ensures PrimeiroMinimo(s, DuracaoDe) == i
  {
    var k := PrimeiroMinimo(s, DuracaoDe);
    assert DuracaoDe(s[k]) <= DuracaoDe(s[i]) && s[i].duracao <= s[k].duracao;
  }
}
