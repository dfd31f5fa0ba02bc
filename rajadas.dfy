/**
 * What one dispatch does to a task, over snapshots (`Vista`): the burst of
 * a quantum scheduler, the completion that may follow it, and the single
 * run-to-completion burst of the non-preemptive schedulers.  The scheduler
 * methods are proved to perform exactly these updates; the lemmas here say
 * what the updates keep.
 */
module Rajadas {
  import opened Wrappers
  import opened Tarefas

  /** Context-switch overhead charged after every burst that leaves work behind. */
  const SOBRECARGA: real := 0.3

  function Max(a: real, b: real): (m: real)
    ensures m >= a && m >= b && (m == a || m == b)
  {
    if a >= b then a else b
  }

  /** `min(tempo_restante, quantum)`: how long a burst lasts. */
  function Fatia(restante: real, quantum: real): (e: real)
    ensures e <= restante && e <= quantum
    ensures e == restante || e == quantum
  {
    if restante <= quantum then restante else quantum
  }

  /**
   * One burst of a quantum scheduler at clock `relogio`: it starts when
   * both the processor and the task are ready, lasts `Fatia`, and updates
   * the accumulated wait, which on the first burst subtracts 0 rather than
   * the arrival time.
   */
  function Rajada(v: Vista, relogio: real, quantum: real): Vista {
    var s := Max(relogio, v.chegada);
    var e := Fatia(v.restante, quantum);
    var inicio := if v.inicio.None? then s else v.inicio.value;
    v.(inicioExecucaoAtual := Some(s),
       inicio := Some(inicio),
       espera := v.espera + (s - v.fimExecucaoAtual.GetOr(0.0)),
       fimExecucaoAtual := Some(s + e),
       bursts := v.bursts + [Burst(s, s + e)],
       restante := v.restante - e,
       resposta := Some(inicio - v.chegada))
  }

  /** The clock after a burst: its end, plus the overhead when work is left. */
  function RelogioApos(v: Vista, relogio: real, quantum: real): real {
    var w := Rajada(v, relogio, quantum);
    w.fimExecucaoAtual.value + (if w.restante > 0.0 then SOBRECARGA else 0.0)
  }

  /** A task whose last burst used up its remaining time is marked finished at its end. */
  function Concluir(v: Vista, relogio: real): Vista {
    v.(final := Some(relogio))
  }

  function Ultima(bs: seq<Burst>): Burst
    requires bs != []
  {
    bs[|bs| - 1]
  }

  /**
   * The invariant every task keeps under the quantum schedulers: the bursts
   * are chronological and start after the arrival, they and the remaining
   * time add up to the duration, the bookkeeping fields describe the first
   * and the last burst, and a finished task finished at its last burst with
   * nothing left.  The accumulated wait is the end of the last burst minus
   * the time run, because the first burst counts from time 0.
   */
  predicate Consistente(v: Vista) {
    && Cronologicos(v.bursts)
    && SomaDuracoes(v.bursts) + v.restante == v.duracao
    && (v.bursts == [] ==>
          && v.inicio == None && v.inicioExecucaoAtual == None && v.fimExecucaoAtual == None
          && v.resposta == None && v.espera == 0.0 && v.final == None)
    && (v.bursts != [] ==>
          && v.bursts[0].inicio >= v.chegada
          && v.inicio == Some(v.bursts[0].inicio)
          && v.resposta == Some(v.bursts[0].inicio - v.chegada)
          && v.inicioExecucaoAtual == Some(Ultima(v.bursts).inicio)
          && v.fimExecucaoAtual == Some(Ultima(v.bursts).fim)
          && v.espera == Ultima(v.bursts).fim - SomaDuracoes(v.bursts)
          && (v.final.Some? ==> v.final == Some(Ultima(v.bursts).fim) && v.restante == 0.0))
  }

  /** The snapshot of a task as its constructor leaves it. */
  function Inicial(chegada: real, duracao: real, prioridade: int, deadline: Option<real>): Vista {
    Vista(chegada, duracao, prioridade, deadline, duracao, None, None, 0.0, None, None, None, [])
  }

  lemma InicialConsistente(chegada: real, duracao: real, prioridade: int, deadline: Option<real>)
    ensures Consistente(Inicial(chegada, duracao, prioridade, deadline))
  {
  }

  /**
   * A burst keeps the invariant, provided the clock is past the task's
   * previous bursts and the task is unfinished with time left.
   */
  lemma RajadaConsistente(v: Vista, relogio: real, quantum: real)
    requires Consistente(v) && v.final.None? && v.restante > 0.0 && quantum > 0.0
    requires v.bursts != [] ==> Ultima(v.bursts).fim <= relogio
    ensures Consistente(Rajada(v, relogio, quantum))
  {
    var w := Rajada(v, relogio, quantum);
    var s, e := Max(relogio, v.chegada), Fatia(v.restante, quantum);
    var b := Burst(s, s + e);
    assert w.bursts == v.bursts + [b];
    assert w.bursts[..|w.bursts| - 1] == v.bursts;
    assert SomaDuracoes(w.bursts) == SomaDuracoes(v.bursts) + e;
    assert Cronologicos(w.bursts) by {
      forall k | 0 < k < |w.bursts| ensures w.bursts[k - 1].fim <= w.bursts[k].inicio {
        if k == |w.bursts| - 1 {
          assert w.bursts[k - 1] == Ultima(v.bursts);
        } else {
          assert w.bursts[k - 1] == v.bursts[k - 1] && w.bursts[k] == v.bursts[k];
        }
      }
    }
    if v.bursts != [] {
      assert w.bursts[0] == v.bursts[0];
      assert v.fimExecucaoAtual.GetOr(0.0) == Ultima(v.bursts).fim;
      assert w.espera == s - SomaDuracoes(v.bursts);
    } else {
      assert w.espera == s;
    }
  }

  /** A burst never exceeds the quantum, and the remaining time drops by exactly its length. */
  lemma RajadaMedida(v: Vista, relogio: real, quantum: real)
    requires v.restante > 0.0 && quantum > 0.0
    ensures var w := Rajada(v, relogio, quantum);
      && |w.bursts| == |v.bursts| + 1
      && Ultima(w.bursts).inicio == Max(relogio, v.chegada)
      && 0.0 < Ultima(w.bursts).Duracao() <= quantum
      && w.restante == v.restante - Ultima(w.bursts).Duracao()
      && 0.0 <= w.restante
      && (w.restante > 0.0 ==> Ultima(w.bursts).Duracao() == quantum)
      && (v.inicio.Some? ==> w.inicio == v.inicio)
  {
  }

  /** Marking the task finished at the end of its last burst keeps the invariant. */
  lemma ConcluirConsistente(v: Vista)
    requires Consistente(v) && v.bursts != [] && v.restante == 0.0
    ensures Consistente(Concluir(v, Ultima(v.bursts).fim))
  {
  }

  /**
   * One dispatch of a quantum scheduler as a whole: the burst, followed by
   * the completion at its end when it used up the remaining time.
   */
  function Servida(v: Vista, relogio: real, quantum: real): Vista {
    var w := Rajada(v, relogio, quantum);
    if w.restante > 0.0 then w else Concluir(w, w.fimExecucaoAtual.value)
  }

  /**
   * A dispatch keeps the invariant, and the task comes out either finished
   * with nothing left or unfinished with time left; the clock then stands
   * at or after the end of its last burst.
   */
  lemma ServidaConsistente(v: Vista, relogio: real, quantum: real)
    requires Consistente(v) && v.final.None? && v.restante > 0.0 && quantum > 0.0
    requires v.bursts != [] ==> Ultima(v.bursts).fim <= relogio
    ensures var w := Servida(v, relogio, quantum);
      && Consistente(w)
      && w.bursts == v.bursts + [Ultima(w.bursts)]
      && (w.final.Some? <==> w.restante <= 0.0)
      && (w.final.None? ==> w.restante > 0.0)
      && (w.final.None? ==> w.restante == v.restante - quantum)
      && relogio <= Ultima(w.bursts).fim <= RelogioApos(v, relogio, quantum)
  {
    RajadaConsistente(v, relogio, quantum);
    RajadaMedida(v, relogio, quantum);
    var w := Rajada(v, relogio, quantum);
    if w.restante <= 0.0 {
      ConcluirConsistente(w);
    }
  }

  /** Chronological bursts fit between the start of the first and the end of the last. */
  lemma {:induction false} CronologicosCabem(bs: seq<Burst>)
    requires Cronologicos(bs) && bs != []
    ensures SomaDuracoes(bs) <= Ultima(bs).fim - bs[0].inicio
  {
    if |bs| > 1 {
      var p := bs[..|bs| - 1];
      assert Cronologicos(p);
      CronologicosCabem(p);
      assert p[0] == bs[0] && Ultima(p) == bs[|bs| - 2];
    }
  }

  /**
   * A finished task ran for exactly its duration, its turnaround is at
   * least its duration, and the accumulated wait exceeds the true wait
   * (turnaround minus duration) by exactly the arrival time.
   */
  lemma Concluida(v: Vista)
    requires Consistente(v) && v.final.Some?
    ensures v.bursts != []
    ensures SomaDuracoes(v.bursts) == v.duracao
    ensures v.final.value - v.chegada >= v.duracao
    ensures v.espera == (v.final.value - v.chegada - v.duracao) + v.chegada
  {
    CronologicosCabem(v.bursts);
  }

  /**
   * The single burst of the non-preemptive schedulers (FIFO, SJF and
   * non-preemptive priority): the task runs its whole duration from
   * `inicio`, and its wait and response are both the delay since arrival.
   * The remaining time is left as it was.
   */
  function ExecucaoInteira(v: Vista, inicio: real): Vista {
    var fim := inicio + v.duracao;
    v.(inicio := Some(inicio),
       inicioExecucaoAtual := Some(inicio),
       fimExecucaoAtual := Some(fim),
       bursts := v.bursts + [Burst(inicio, fim)],
       final := Some(fim),
       espera := inicio - v.chegada,
       resposta := Some(inicio - v.chegada))
  }

  /**
   * What a run-to-completion burst leaves behind: the last burst runs the
   * whole duration, the task's start and finish are that burst's, and its
   * wait and response are the delay from arrival to that start.
   */
  predicate ExecutadaInteira(v: Vista) {
    && v.bursts != []
    && Ultima(v.bursts).fim == Ultima(v.bursts).inicio + v.duracao
    && v.inicio == Some(Ultima(v.bursts).inicio)
    && v.inicioExecucaoAtual == v.inicio
    && v.final == Some(Ultima(v.bursts).fim)
    && v.fimExecucaoAtual == v.final
    && v.espera == Ultima(v.bursts).inicio - v.chegada
    && v.resposta == Some(v.espera)
  }

  lemma ExecucaoInteiraExecutada(v: Vista, inicio: real)
    ensures ExecutadaInteira(ExecucaoInteira(v, inicio))
    ensures ExecucaoInteira(v, inicio).restante == v.restante
    ensures ExecucaoInteira(v, inicio).bursts[..|v.bursts|] == v.bursts
  {
  }
}
