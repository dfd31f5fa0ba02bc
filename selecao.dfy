/**
 * How each scheduler picks the next task among the queued tasks that have
 * already arrived, over snapshots (`Vista`) of those tasks in queue order.
 *
 * The source sorts the arrived tasks with Python's stable `list.sort` and
 * takes the first or the last element.  Here every snapshot is tagged with
 * its position (the tag plays the part of the task object's identity), the
 * tagged list is sorted with `OrdenarPor`, and the tag of the element taken
 * is the index returned.  Each selection function then states, as its
 * contract, which index that is: the first or the last extremum of the key.
 */
module Selecao {
  import opened Wrappers
  import opened Tarefas
  import opened Ordenacao

  /** A snapshot tagged with its position in the list of arrived tasks. */
  type Rotulada = (nat, Vista)

  function Rotular(c: seq<Vista>): (r: seq<Rotulada>)
    ensures |r| == |c|
    ensures forall i :: 0 <= i < |c| ==> r[i] == (i, c[i])
  {
    seq(|c|, i requires 0 <= i < |c| => (i, c[i]))
  }

  function Valores(r: seq<Rotulada>): (c: seq<Vista>)
    ensures |c| == |r|
    ensures forall i :: 0 <= i < |r| ==> c[i] == r[i].1
  {
    seq(|r|, i requires 0 <= i < |r| => r[i].1)
  }

  /** A key on snapshots, read through the tag. */
  function NoRotulo(f: Vista -> real): Rotulada -> real {
    (p: Rotulada) => f(p.1)
  }

  function Duracao(v: Vista): real { v.duracao }
  /** Only meaningful when the deadline is present; EDF and UG demand that. */
  function Deadline(v: Vista): real { v.deadline.GetOr(0.0) }
  function Prioridade(v: Vista): real { v.prioridade as real }
  function Restante(v: Vista): real { v.restante }

  /** Every arrived task has a deadline (comparing `None` raises in the source). */
  predicate ComDeadlines(c: seq<Vista>) {
    forall i :: 0 <= i < |c| ==> c[i].deadline.Some?
  }

  /**
   * `sorted(c, key=f)[0]`: the index of the first arrived task with the
   * smallest key.  Used by SJF (key `duracao`) and EDF (key `deadline`).
   */
  function PrimeiroPelaOrdenacao(c: seq<Vista>, f: Vista -> real): (k: nat)
    requires |c| > 0
    ensures k < |c|
    ensures forall j :: 0 <= j < |c| ==> f(c[k]) <= f(c[j])
    ensures forall j :: 0 <= j < k ==> f(c[k]) < f(c[j])
  {
    var r, g := Rotular(c), NoRotulo(f);
    PrimeiroDaOrdenacao(r, g);
    OrdenarPor(r, g)[0].0
  }

  /**
   * `sorted(c, key=f)[-1]`: the index of the last arrived task with the
   * largest key.  Used by preemptive priority and UG (key `prioridade`).
   */
  function UltimoPelaOrdenacao(c: seq<Vista>, f: Vista -> real): (k: nat)
    requires |c| > 0
    ensures k < |c|
    ensures forall j :: 0 <= j < |c| ==> f(c[j]) <= f(c[k])
    ensures forall j :: k < j < |c| ==> f(c[j]) < f(c[k])
  {
    var r, g := Rotular(c), NoRotulo(f);
    UltimoDaOrdenacao(r, g);
    OrdenarPor(r, g)[|c| - 1].0
  }

  /**
   * `sorted(c, key=f, reverse=True)[0]`: the index of the first arrived task
   * with the largest key.  Used by non-preemptive priority.
   */
  function PrimeiroPelaOrdenacaoInversa(c: seq<Vista>, f: Vista -> real): (k: nat)
    requires |c| > 0
    ensures k < |c|
    ensures forall j :: 0 <= j < |c| ==> f(c[j]) <= f(c[k])
    ensures forall j :: 0 <= j < k ==> f(c[j]) < f(c[k])
  {
    var r, g := Rotular(c), NoRotulo(f);
    PrimeiroDaOrdenacaoInversa(r, g);
    assert forall j :: 0 <= j < |r| ==> g(r[j]) == f(c[j]);
    OrdenarPor(r, Oposta(g))[0].0
  }

  /** SJF picks the first arrived task with the shortest `duracao`. */
  function SelecaoSJF(c: seq<Vista>): (k: nat)
    requires |c| > 0
    ensures k < |c|
    ensures forall j :: 0 <= j < |c| ==> c[k].duracao <= c[j].duracao
    ensures forall j :: 0 <= j < k ==> c[k].duracao < c[j].duracao
  {
    PrimeiroPelaOrdenacao(c, Duracao)
  }

  /** EDF picks the first arrived task with the earliest deadline. */
  function SelecaoEDF(c: seq<Vista>): (k: nat)
    requires |c| > 0 && ComDeadlines(c)
    ensures k < |c|
    ensures forall j :: 0 <= j < |c| ==> c[k].deadline.value <= c[j].deadline.value
    ensures forall j :: 0 <= j < k ==> c[k].deadline.value < c[j].deadline.value
  {
    PrimeiroPelaOrdenacao(c, Deadline)
  }

  /**
   * Non-preemptive priority picks the first arrived task with the LARGEST
   * `prioridade` value.
   */
  function SelecaoPrioridadeNP(c: seq<Vista>): (k: nat)
    requires |c| > 0
    ensures k < |c|
    ensures forall j :: 0 <= j < |c| ==> c[j].prioridade <= c[k].prioridade
    ensures forall j :: 0 <= j < k ==> c[j].prioridade < c[k].prioridade
  {
    PrimeiroPelaOrdenacaoInversa(c, Prioridade)
  }

  /**
   * Preemptive priority and UG pick the LAST arrived task with the largest
   * `prioridade` value.
   */
  function SelecaoPrioridadeP(c: seq<Vista>): (k: nat)
    requires |c| > 0
    ensures k < |c|
    ensures forall j :: 0 <= j < |c| ==> c[j].prioridade <= c[k].prioridade
    ensures forall j :: k < j < |c| ==> c[j].prioridade < c[k].prioridade
  {
    UltimoPelaOrdenacao(c, Prioridade)
  }

  // ---------------------------------------------------------------------
  // UG

  /**
   * The urgency of a task: its priority over the slack left before the
   * deadline, or one more than the threshold when there is no slack.
   */
  function Urgencia(prioridade: int, deadline: real, restante: real, urgMax: real): (u: real)
    ensures deadline <= restante ==> u == urgMax + 1.0
    ensures deadline > restante ==> u * (deadline - restante) == prioridade as real
  {
    if deadline > restante then prioridade as real / (deadline - restante) else urgMax + 1.0
  }

  /**
   * A task is urgent exactly when it has no slack left, or its priority
   * exceeds the threshold scaled by its slack.
   */
  lemma Urgente(prioridade: int, deadline: real, restante: real, urgMax: real)
    ensures Urgencia(prioridade, deadline, restante, urgMax) > urgMax
        <==> deadline <= restante || prioridade as real > urgMax * (deadline - restante)
  {
    if deadline > restante {
      var folga := deadline - restante;
      var u := Urgencia(prioridade, deadline, restante, urgMax);
      assert u * folga == prioridade as real;
      if u > urgMax {
        assert u * folga > urgMax * folga;
      } else {
        assert u * folga <= urgMax * folga;
      }
    }
  }

  // ---------------------------------------------------------------------
  // FutureVision: the waiting limit and the selection

  /** The five arrival-time estimators of the FutureVision variants. */
  datatype Estimador =
    | Mediana          // FutureVision
    | Media            // FutureVisionMedia
    | MediaIntervalo   // FutureVisionMediaIntervalo
    | Minimo           // FutureVisionMin
    | Maximo           // FutureVisionMax

  function SomaPor(l: seq<Vista>, f: Vista -> real): real {
    if l == [] then 0.0 else SomaPor(l[..|l| - 1], f) + f(l[|l| - 1])
  }

  function Chegada(v: Vista): real { v.chegada }

  function MenorChegada(l: seq<Vista>): real
    requires |l| > 0
  {
    if |l| == 1 then l[0].chegada
    else
      var m := MenorChegada(l[..|l| - 1]);
      if l[|l| - 1].chegada < m then l[|l| - 1].chegada else m
  }

  function MaiorChegada(l: seq<Vista>): real
    requires |l| > 0
  {
    if |l| == 1 then l[0].chegada
    else
      var m := MaiorChegada(l[..|l| - 1]);
      if l[|l| - 1].chegada > m then l[|l| - 1].chegada else m
  }

  /** MenorChegada and MaiorChegada are the earliest and the latest arrival of `l`. */
  lemma {:induction false} ChegadasExtremas(l: seq<Vista>)
    requires |l| > 0
    ensures forall i :: 0 <= i < |l| ==> MenorChegada(l) <= l[i].chegada <= MaiorChegada(l)
    ensures exists i :: 0 <= i < |l| && MenorChegada(l) == l[i].chegada
    ensures exists i :: 0 <= i < |l| && MaiorChegada(l) == l[i].chegada
  {
    if |l| > 1 {
      var n := |l| - 1;
      var p := l[..n];
      ChegadasExtremas(p);
      var a :| 0 <= a < |p| && MenorChegada(p) == p[a].chegada;
      var b :| 0 <= b < |p| && MaiorChegada(p) == p[b].chegada;
      assert p[a] == l[a] && p[b] == l[b];
      forall i | 0 <= i < |l|
        ensures MenorChegada(l) <= l[i].chegada <= MaiorChegada(l)
      {
        if i < n {
          assert p[i] == l[i];
        }
      }
      if l[n].chegada < MenorChegada(p) {
        assert MenorChegada(l) == l[n].chegada;
      } else {
        assert MenorChegada(l) == l[a].chegada;
      }
      if l[n].chegada > MaiorChegada(p) {
        assert MaiorChegada(l) == l[n].chegada;
      } else {
        assert MaiorChegada(l) == l[b].chegada;
      }
    }
  }

  /** The arrival time at the middle position(s) of `l`, in the order given. */
  function MedianaPosicional(l: seq<Vista>): real
    requires |l| > 0
  {
    var n := |l|;
    if n % 2 == 0 then (l[n / 2 - 1].chegada + l[n / 2].chegada) / 2.0 else l[n / 2].chegada
  }

  function MediaChegadas(l: seq<Vista>): real
    requires |l| > 0
  {
    SomaPor(l, Chegada) / (|l| as real)
  }

  /** Python's `(min + max) // 2` on floats: the floor of the midpoint. */
  function PontoMedio(l: seq<Vista>): real
    requires |l| > 0
  {
    ((MenorChegada(l) + MaiorChegada(l)) / 2.0).Floor as real
  }

  function Min3(a: real, b: real, c: real): real {
    if a <= b && a <= c then a else if b <= c then b else c
  }

  function Max3(a: real, b: real, c: real): real {
    if a >= b && a >= c then a else if b >= c then b else c
  }

  function Estimativa(e: Estimador, l: seq<Vista>): real
    requires |l| > 0
  {
    match e
    case Mediana => MedianaPosicional(l)
    case Media => MediaChegadas(l)
    case MediaIntervalo => PontoMedio(l)
    case Minimo => Min3(MediaChegadas(l), PontoMedio(l), MedianaPosicional(l))
    case Maximo => Max3(MediaChegadas(l), PontoMedio(l), MedianaPosicional(l))
  }

  /**
   * The waiting limit of a FutureVision variant: the mean remaining time of
   * the arrived tasks plus the variant's arrival estimate; 0 when none.
   */
  function Limite(e: Estimador, l: seq<Vista>): real {
    if l == [] then 0.0 else SomaPor(l, Restante) / (|l| as real) + Estimativa(e, l)
  }

  lemma {:induction false} SomaPorLimitada(l: seq<Vista>, f: Vista -> real, a: real, b: real)
    requires forall i :: 0 <= i < |l| ==> a <= f(l[i]) <= b
    ensures (|l| as real) * a <= SomaPor(l, f) <= (|l| as real) * b
  {
    if l != [] {
      var p := l[..|l| - 1];
      assert forall i :: 0 <= i < |p| ==> p[i] == l[i];
      SomaPorLimitada(p, f, a, b);
      var n := |p| as real;
      assert SomaPor(l, f) == SomaPor(p, f) + f(l[|l| - 1]);
      assert (|l| as real) * a == n * a + a;
      assert (|l| as real) * b == n * b + b;
    }
  }

  lemma Quociente(s: real, n: real, a: real, b: real)
    requires n > 0.0 && n * a <= s <= n * b
    ensures a <= s / n <= b
  {
    assert s / n * n == s;
  }

  /** A mean of values that lie between `a` and `b` lies between them too. */
  lemma MediaPorLimitada(l: seq<Vista>, f: Vista -> real, a: real, b: real)
    requires |l| > 0 && forall i :: 0 <= i < |l| ==> a <= f(l[i]) <= b
    ensures a <= SomaPor(l, f) / (|l| as real) <= b
  {
    SomaPorLimitada(l, f, a, b);
    Quociente(SomaPor(l, f), |l| as real, a, b);
  }

  /** The mean arrival lies between the earliest and the latest arrival. */
  lemma MediaEntreExtremos(l: seq<Vista>)
    requires |l| > 0
    ensures MenorChegada(l) <= MediaChegadas(l) <= MaiorChegada(l)
  {
    var lo, hi := MenorChegada(l), MaiorChegada(l);
    ChegadasExtremas(l);
    forall i | 0 <= i < |l| ensures lo <= Chegada(l[i]) <= hi {
      assert Chegada(l[i]) == l[i].chegada;
    }
    MediaPorLimitada(l, Chegada, lo, hi);
  }

  /**
   * Every estimate lies within the arrivals, except that flooring the
   * midpoint may fall up to one unit below the earliest arrival.
   */
  lemma EstimativaEntreChegadas(e: Estimador, l: seq<Vista>)
    requires |l| > 0
    ensures MenorChegada(l) - 1.0 < Estimativa(e, l) <= MaiorChegada(l)
    ensures e != MediaIntervalo && e != Minimo ==> MenorChegada(l) <= Estimativa(e, l)
  {
    var lo, hi := MenorChegada(l), MaiorChegada(l);
    ChegadasExtremas(l);
    MediaEntreExtremos(l);
    var n := |l|;
    assert lo <= l[n / 2].chegada <= hi;
    if n % 2 == 0 {
      assert lo <= l[n / 2 - 1].chegada <= hi;
    }
    assert lo <= MedianaPosicional(l) <= hi;
    var m := (lo + hi) / 2.0;
    assert lo <= m <= hi;
    assert m - 1.0 < PontoMedio(l) <= m;
  }

  /**
   * How long a task has been waiting at `relogio`: since the end of its last
   * burst, or since its arrival if it has never run.
   */
  function Aguardando(v: Vista, relogio: real): real {
    match v.fimExecucaoAtual
    case Some(fim) => relogio - fim
    case None => relogio - v.chegada
  }

  /** The arrived tasks sorted by ascending remaining time, tagged with their positions. */
  function OrdemFV(c: seq<Vista>): seq<Rotulada> {
    OrdenarPor(Rotular(c), NoRotulo(Restante))
  }

  /** The limit the FutureVision variant `e` applies to the arrived tasks `c`. */
  function LimiteFV(e: Estimador, c: seq<Vista>): real {
    Limite(e, Valores(OrdemFV(c)))
  }

  /** Position in `o` of the first task waiting longer than `lim`, or |o| if none is. */
  function PrimeiroAcima(o: seq<Rotulada>, relogio: real, lim: real): (j: nat)
    ensures j <= |o|
    ensures forall i :: 0 <= i < j ==> Aguardando(o[i].1, relogio) <= lim
    ensures j < |o| ==> Aguardando(o[j].1, relogio) > lim
  {
    if o == [] then 0
    else if Aguardando(o[0].1, relogio) > lim then 0
    else 1 + PrimeiroAcima(o[1..], relogio, lim)
  }

  /**
   * The choice for a given limit: the first task, in ascending
   * remaining-time order, that has waited longer than `lim`; failing that,
   * the first task of that order.
   */
  function EscolhaFV(c: seq<Vista>, relogio: real, lim: real): (k: nat)
    requires |c| > 0
    ensures k < |c|
  {
    var o := OrdemFV(c);
    var j := PrimeiroAcima(o, relogio, lim);
    var p := if j < |o| then j else 0;
    RotuloValido(c, p);
    o[p].0
  }

  /** FutureVision's choice, with the limit of the variant `e`. */
  function SelecaoFV(e: Estimador, c: seq<Vista>, relogio: real): (k: nat)
    requires |c| > 0
    ensures k < |c|
  {
    EscolhaFV(c, relogio, LimiteFV(e, c))
  }

  /** Every element of the sorted list is an arrived task tagged with its own position. */
  lemma RotuloValido(c: seq<Vista>, p: nat)
    requires p < |OrdemFV(c)|
    ensures OrdemFV(c)[p].0 < |c| && OrdemFV(c)[p].1 == c[OrdemFV(c)[p].0]
  {
    var o := OrdemFV(c);
    assert o[p] in multiset(o);
    assert o[p] in multiset(Rotular(c));
    var i :| 0 <= i < |c| && Rotular(c)[i] == o[p];
  }

  /** Every arrived task appears in the sorted list. */
  lemma Localizar(c: seq<Vista>, i: nat) returns (p: nat)
    requires i < |c|
    ensures p < |OrdemFV(c)| && OrdemFV(c)[p] == (i, c[i])
  {
    var o := OrdemFV(c);
    assert Rotular(c)[i] in multiset(Rotular(c));
    assert (i, c[i]) in multiset(o);
    p :| 0 <= p < |o| && o[p] == (i, c[i]);
  }

  /** Ties in remaining time keep queue order in the FutureVision sort. */
  lemma OrdemFVLex(c: seq<Vista>)
    ensures LexCrescente(OrdemFV(c), NoRotulo(Restante))
  {
    var r := Rotular(c);
    assert forall a, b :: 0 <= a < b < |r| ==> r[a].0 < r[b].0;
    OrdenacaoLex(r, NoRotulo(Restante));
  }

  /**
   * When some arrived task waited longer than the limit, the choice is the
   * one among those with the smallest remaining time, the earliest in queue
   * order among equal remaining times.
   */
  lemma EscolhaFVAcima(c: seq<Vista>, relogio: real, lim: real, i: nat)
    requires i < |c| && Aguardando(c[i], relogio) > lim
    ensures var k := EscolhaFV(c, relogio, lim);
      && k < |c|
      && Aguardando(c[k], relogio) > lim
      && (c[k].restante < c[i].restante || (c[k].restante == c[i].restante && k <= i))
  {
    var g := NoRotulo(Restante);
    var o := OrdemFV(c);
    var j := PrimeiroAcima(o, relogio, lim);
    var p := Localizar(c, i);
    assert j <= p;
    RotuloValido(c, j);
    var k := o[j].0;
    assert g(o[j]) == c[k].restante && g(o[p]) == c[i].restante;
    if j < p {
      OrdemFVLex(c);
      assert g(o[j]) < g(o[p]) || (g(o[j]) == g(o[p]) && k < i);
    }
  }

  /**
   * When no arrived task waited longer than the limit, the choice is the
   * first task with the smallest remaining time.
   */
  lemma EscolhaFVAbaixo(c: seq<Vista>, relogio: real, lim: real)
    requires |c| > 0
    requires forall i :: 0 <= i < |c| ==> Aguardando(c[i], relogio) <= lim
    ensures EscolhaFV(c, relogio, lim) == PrimeiroPelaOrdenacao(c, Restante)
  {
    var o := OrdemFV(c);
    var j := PrimeiroAcima(o, relogio, lim);
    if j < |o| {
      RotuloValido(c, j);
      assert false;
    }
    PrimeiroDaOrdenacao(Rotular(c), NoRotulo(Restante));
  }

  /**
   * The FutureVision selection as the source runs it: sort by remaining
   * time, then scan in that order for the first task whose wait exceeds the
   * limit, recomputing the limit at every step.
   */
  method EscolherFV(e: Estimador, c: seq<Vista>, relogio: real) returns (k: nat)
    requires |c| > 0
    ensures k == SelecaoFV(e, c, relogio)
  {
    var o := OrdemFV(c);
    var l := Valores(o);
    k := o[0].0;
    var i := 0;
    while i < |o|
      invariant 0 <= i <= |o|
      invariant forall p :: 0 <= p < i ==> Aguardando(o[p].1, relogio) <= LimiteFV(e, c)
    {
      var lim := CalcularLimite(e, l);
      if Aguardando(o[i].1, relogio) > lim {
        k := o[i].0;
        break;
      }
      i := i + 1;
    }
    PrimeiroAcimaUnico(o, relogio, LimiteFV(e, c), i);
  }

  lemma {:induction false} PrimeiroAcimaUnico(o: seq<Rotulada>, relogio: real, lim: real, j: nat)
    requires j <= |o|
    requires forall i :: 0 <= i < j ==> Aguardando(o[i].1, relogio) <= lim
    requires j < |o| ==> Aguardando(o[j].1, relogio) > lim
    ensures PrimeiroAcima(o, relogio, lim) == j
  {
    if o != [] && j > 0 {
      PrimeiroAcimaUnico(o[1..], relogio, lim, j - 1);
    }
  }

  /**
   * The `limite` method of the FutureVision variants, with the source's
   * accumulating loop over the arrived tasks (in remaining-time order).
   */
  method CalcularLimite(e: Estimador, l: seq<Vista>) returns (lim: real)
    ensures lim == Limite(e, l)
  {
    if |l| == 0 {
      return 0.0;
    }
    var duracaoTotal, chegadaTotal := 0.0, 0.0;
    var menor, maior := l[0].chegada, l[0].chegada;
    var i := 0;
    while i < |l|
      invariant 0 <= i <= |l|
      invariant duracaoTotal == SomaPor(l[..i], Restante)
      invariant chegadaTotal == SomaPor(l[..i], Chegada)
      invariant menor == if i == 0 then l[0].chegada else MenorChegada(l[..i])
      invariant maior == if i == 0 then l[0].chegada else MaiorChegada(l[..i])
    {
      assert l[..i + 1][..i] == l[..i];
      assert SomaPor(l[..i + 1], Restante) == SomaPor(l[..i], Restante) + l[i].restante;
      assert SomaPor(l[..i + 1], Chegada) == SomaPor(l[..i], Chegada) + l[i].chegada;
      duracaoTotal := duracaoTotal + l[i].restante;
      chegadaTotal := chegadaTotal + l[i].chegada;
      menor := if l[i].chegada < menor then l[i].chegada else menor;
      maior := if l[i].chegada > maior then l[i].chegada else maior;
      i := i + 1;
    }
    assert l[..i] == l;
    var n := |l| as real;
    var mediana := MedianaPosicional(l);
    var media := chegadaTotal / n;
    var intervalo := ((menor + maior) / 2.0).Floor as real;
    var estimativa := match e
      case Mediana => mediana
      case Media => media
      case MediaIntervalo => intervalo
      case Minimo => Min3(media, intervalo, mediana)
      case Maximo => Max3(media, intervalo, mediana);
    lim := duracaoTotal / n + estimativa;
  }
}
