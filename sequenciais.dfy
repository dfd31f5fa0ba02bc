/**
 * The run-to-completion schedulers (FIFO, SJF and non-preemptive priority)
 * over snapshots: the whole FIFO run as a function of the tasks in arrival
 * order, and what a task looks like after one or more run-to-completion
 * bursts.  The lemmas state when each task starts and that FIFO's bursts
 * do not overlap.
 */
module Sequenciais {
  import opened Wrappers
  import opened Tarefas
  import opened Rajadas

  /** The clock after FIFO has run the tasks `vs` in order, starting at `relogio`. */
  function RelogioFIFO(vs: seq<Vista>, relogio: real): real {
    if vs == [] then relogio
    else
      var n := |vs| - 1;
      Max(RelogioFIFO(vs[..n], relogio), vs[n].chegada) + vs[n].duracao
  }

  /** When FIFO starts the `j`-th task: once the processor is free and the task has arrived. */
  function InicioFIFO(vs: seq<Vista>, relogio: real, j: nat): real
    requires j < |vs|
  {
    Max(RelogioFIFO(vs[..j], relogio), vs[j].chegada)
  }

  /** The tasks `vs` after FIFO has run each of them to completion, in order. */
  function ExecucaoFIFO(vs: seq<Vista>, relogio: real): (r: seq<Vista>)
    ensures |r| == |vs|
    ensures forall j :: 0 <= j < |r| ==> r[j].bursts != []
  {
    if vs == [] then []
    else
      var n := |vs| - 1;
      ExecucaoFIFO(vs[..n], relogio) + [ExecucaoInteira(vs[n], Max(RelogioFIFO(vs[..n], relogio), vs[n].chegada))]
  }

  /** Each task is run once, from its FIFO start time. */
  lemma {:induction false} ExecucaoFIFOCada(vs: seq<Vista>, relogio: real)
    ensures forall j :: 0 <= j < |vs| ==>
      ExecucaoFIFO(vs, relogio)[j] == ExecucaoInteira(vs[j], InicioFIFO(vs, relogio, j))
  {
    if vs != [] {
      var n := |vs| - 1;
      var p := ExecucaoFIFO(vs[..n], relogio);
      ExecucaoFIFOCada(vs[..n], relogio);
      assert ExecucaoFIFO(vs, relogio) == p + [ExecucaoInteira(vs[n], InicioFIFO(vs, relogio, n))];
      forall j | 0 <= j < n
        ensures ExecucaoFIFO(vs, relogio)[j] == ExecucaoInteira(vs[j], InicioFIFO(vs, relogio, j))
      {
        assert vs[..n][..j] == vs[..j];
        assert InicioFIFO(vs[..n], relogio, j) == InicioFIFO(vs, relogio, j);
        assert ExecucaoFIFO(vs, relogio)[j] == p[j];
      }
    }
  }

  /** Running one more task extends the FIFO run by that task's run-to-completion burst. */
  lemma ExecucaoFIFOPasso(vs: seq<Vista>, relogio: real, i: nat)
    requires i < |vs|
    ensures ExecucaoFIFO(vs[..i + 1], relogio)
      == ExecucaoFIFO(vs[..i], relogio) + [ExecucaoInteira(vs[i], InicioFIFO(vs, relogio, i))]
    ensures RelogioFIFO(vs[..i + 1], relogio) == InicioFIFO(vs, relogio, i) + vs[i].duracao
  {
    assert vs[..i + 1][..i] == vs[..i];
  }

  /** The clock after the first `j` tasks, plus the `j`-th task's duration, is the clock after `j + 1`. */
  lemma RelogioFIFOPrefixo(vs: seq<Vista>, relogio: real, j: nat)
    requires j < |vs|
    ensures RelogioFIFO(vs[..j + 1], relogio) == InicioFIFO(vs, relogio, j) + vs[j].duracao
  {
    assert vs[..j + 1][..j] == vs[..j];
  }

  /** With no negative durations the clock never goes back. */
  lemma {:induction false} RelogioFIFOCresce(vs: seq<Vista>, relogio: real, a: nat, b: nat)
    requires a <= b <= |vs|
    requires forall j :: 0 <= j < |vs| ==> vs[j].duracao >= 0.0
    ensures relogio <= RelogioFIFO(vs[..a], relogio) <= RelogioFIFO(vs[..b], relogio)
    decreases b
  {
    if b > 0 {
      var p := b - 1;
      RelogioFIFOPrefixo(vs, relogio, p);
      if a < b {
        RelogioFIFOCresce(vs, relogio, a, p);
      } else {
        RelogioFIFOCresce(vs, relogio, p, p);
      }
    } else {
      assert vs[..0] == [];
    }
  }

  /**
   * Under FIFO each task gets exactly one more burst, which starts no
   * earlier than the clock and the task's arrival and lasts its duration;
   * its finish, wait and response are those of that burst, and its
   * remaining time is untouched.
   */
  lemma UmaRajadaCada(vs: seq<Vista>, relogio: real)
    ensures forall j :: 0 <= j < |vs| ==>
      var w := ExecucaoFIFO(vs, relogio)[j];
      && |w.bursts| == |vs[j].bursts| + 1
      && w.bursts[..|vs[j].bursts|] == vs[j].bursts
      && Ultima(w.bursts).inicio >= vs[j].chegada
      && Ultima(w.bursts).inicio >= RelogioFIFO(vs[..j], relogio)
      && ExecutadaInteira(w)
      && w.restante == vs[j].restante
  {
    ExecucaoFIFOCada(vs, relogio);
    forall j | 0 <= j < |vs|
      ensures ExecutadaInteira(ExecucaoInteira(vs[j], InicioFIFO(vs, relogio, j)))
      ensures ExecucaoInteira(vs[j], InicioFIFO(vs, relogio, j)).bursts[..|vs[j].bursts|] == vs[j].bursts
    {
      ExecucaoInteiraExecutada(vs[j], InicioFIFO(vs, relogio, j));
    }
  }

  /**
   * With no negative durations, FIFO's start times never go back and the
   * bursts it adds do not overlap: each ends before the next one starts,
   * and none starts before `relogio`.
   */
  lemma SemSobreposicao(vs: seq<Vista>, relogio: real)
    requires forall j :: 0 <= j < |vs| ==> vs[j].duracao >= 0.0
    ensures forall j :: 0 <= j < |vs| ==> Ultima(ExecucaoFIFO(vs, relogio)[j].bursts).inicio >= relogio
    ensures forall j, k :: 0 <= j < k < |vs| ==>
      Ultima(ExecucaoFIFO(vs, relogio)[j].bursts).fim <= Ultima(ExecucaoFIFO(vs, relogio)[k].bursts).inicio
  {
    var r := ExecucaoFIFO(vs, relogio);
    ExecucaoFIFOCada(vs, relogio);
    forall j | 0 <= j < |vs|
      ensures Ultima(r[j].bursts).inicio >= relogio
    {
      RelogioFIFOCresce(vs, relogio, j, j);
    }
    forall j, k | 0 <= j < k < |vs|
      ensures Ultima(r[j].bursts).fim <= Ultima(r[k].bursts).inicio
    {
      RelogioFIFOPrefixo(vs, relogio, j);
      RelogioFIFOCresce(vs, relogio, j + 1, k);
    }
  }

  /**
   * A task after one or more run-to-completion bursts from its state `v0`:
   * its earlier bursts are kept, each new burst starts after its arrival
   * and lasts its whole duration, and its other fields are those the last
   * of them sets.  SJF can run a task again (see `EscalonarSJF`), so more
   * than one new burst is allowed.
   */
  predicate Reexecutada(v0: Vista, v: Vista) {
    && |v.bursts| > |v0.bursts|
    && v.bursts[..|v0.bursts|] == v0.bursts
    && v == ExecucaoInteira(v0.(bursts := v.bursts[..|v.bursts| - 1]), Ultima(v.bursts).inicio)
    && forall k :: |v0.bursts| <= k < |v.bursts| ==>
         v.bursts[k].inicio >= v0.chegada && v.bursts[k].fim == v.bursts[k].inicio + v0.duracao
  }

  /** The first run-to-completion burst, started after the arrival, gives a `Reexecutada` task. */
  lemma PrimeiraExecucao(v0: Vista, inicio: real)
    requires inicio >= v0.chegada
    ensures Reexecutada(v0, ExecucaoInteira(v0, inicio))
  {
    var v := ExecucaoInteira(v0, inicio);
    assert v.bursts[..|v.bursts| - 1] == v0.bursts;
    assert v.bursts[..|v0.bursts|] == v0.bursts;
  }

  /** Running a `Reexecutada` task again, after its arrival, keeps it so. */
  lemma NovaExecucao(v0: Vista, v: Vista, inicio: real)
    requires Reexecutada(v0, v) && inicio >= v.chegada
    ensures Reexecutada(v0, ExecucaoInteira(v, inicio))
  {
    var w := ExecucaoInteira(v, inicio);
    assert w.bursts[..|w.bursts| - 1] == v.bursts;
    assert w.bursts[..|v0.bursts|] == v.bursts[..|v0.bursts|];
    assert w == ExecucaoInteira(v0.(bursts := v.bursts), inicio);
    forall k | |v0.bursts| <= k < |w.bursts|
      ensures w.bursts[k].inicio >= v0.chegada && w.bursts[k].fim == w.bursts[k].inicio + v0.duracao
    {
      if k < |v.bursts| {
        assert w.bursts[k] == v.bursts[k];
      }
    }
  }

  /**
   * What a `Reexecutada` task amounts to: it is finished at the end of its
   * last burst, which lasts its whole duration and started after its
   * arrival; its wait and response are that burst's delay since arrival;
   * its fixed fields and remaining time are unchanged.
   */
  lemma ReexecutadaEncerrada(v0: Vista, v: Vista)
    requires Reexecutada(v0, v)
    ensures ExecutadaInteira(v)
    ensures v.final == Some(Ultima(v.bursts).inicio + v0.duracao)
    ensures Ultima(v.bursts).inicio >= v0.chegada
    ensures v.espera == Ultima(v.bursts).inicio - v0.chegada
    ensures v.chegada == v0.chegada && v.duracao == v0.duracao && v.prioridade == v0.prioridade
    ensures v.deadline == v0.deadline && v.restante == v0.restante
  {
    ExecucaoInteiraExecutada(v0.(bursts := v.bursts[..|v.bursts| - 1]), Ultima(v.bursts).inicio);
    assert Ultima(v.bursts) == v.bursts[|v.bursts| - 1];
  }
}
