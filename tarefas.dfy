/**
 * The task record of the simulator (`TarefaCAV` in base_escalonador.py):
 * fixed description fields, the mutable timing fields the schedulers fill
 * in, and the `executar` operation.
 */
module Tarefas {
  import opened Wrappers

  /** One burst of execution: the pair (start, end) appended to `temposExecucao`. */
  datatype Burst = Burst(inicio: real, fim: real) {
    function Duracao(): real { fim - inicio }
  }

  /** Total time spent running over a list of bursts. */
  function SomaDuracoes(bs: seq<Burst>): real {
    if bs == [] then 0.0 else SomaDuracoes(bs[..|bs| - 1]) + bs[|bs| - 1].Duracao()
  }

  /** The bursts of `bs` are well formed and ordered in time without overlapping. */
  predicate Cronologicos(bs: seq<Burst>) {
    && (forall k :: 0 <= k < |bs| ==> bs[k].inicio <= bs[k].fim)
    && (forall k :: 0 < k < |bs| ==> bs[k - 1].fim <= bs[k].inicio)
  }

  /**
   * A snapshot of every field of a task at one moment: what a selection
   * policy reads, and what the run contracts compare against.
   */
  datatype Vista = Vista(
    chegada: real,
    duracao: real,
    prioridade: int,
    deadline: Option<real>,
    restante: real,
    inicio: Option<real>,
    final: Option<real>,
    espera: real,
    resposta: Option<real>,
    inicioExecucaoAtual: Option<real>,
    fimExecucaoAtual: Option<real>,
    bursts: seq<Burst>)

  class Tarefa {
    const nome: string
    /** Time needed to complete the task. */
    const duracao: real
    const tempoChegada: real
    /** Informational only: no policy reads it. */
    const possivelmenteCatastrofico: bool
    const prioridade: int
    const deadline: Option<real>

    var tempoRestante: real
    var tempoInicio: Option<real>
    var tempoFinal: Option<real>
    var tempoEmEspera: real
    var tempoDeResposta: Option<real>
    var tempoInicioExecucaoAtual: Option<real>
    var tempoFinalExecucaoAtual: Option<real>
    var temposExecucao: seq<Burst>

    /** The state a task is created in: all of its work left, nothing recorded. */
    predicate Nova()
      reads this
    {
      && tempoRestante == duracao
      && tempoInicio == None && tempoFinal == None
      && tempoEmEspera == 0.0 && tempoDeResposta == None
      && tempoInicioExecucaoAtual == None && tempoFinalExecucaoAtual == None
      && temposExecucao == []
    }

    constructor (nome: string, duracao: real, tempoChegada: real,
                 possivelmenteCatastrofico: bool, prioridade: int, deadline: Option<real>)
      ensures this.nome == nome && this.duracao == duracao && this.tempoChegada == tempoChegada
      ensures this.possivelmenteCatastrofico == possivelmenteCatastrofico
      ensures this.prioridade == prioridade && this.deadline == deadline
      ensures Nova()
    {
      this.nome := nome;
      this.duracao := duracao;
      this.tempoChegada := tempoChegada;
      this.possivelmenteCatastrofico := possivelmenteCatastrofico;
      this.prioridade := prioridade;
      this.deadline := deadline;
      tempoRestante := duracao;
      tempoInicio := None;
      tempoFinal := None;
      tempoEmEspera := 0.0;
      tempoDeResposta := None;
      tempoInicioExecucaoAtual := None;
      tempoFinalExecucaoAtual := None;
      temposExecucao := [];
    }

    function Retrato(): Vista
      reads this
    {
      Vista(tempoChegada, duracao, prioridade, deadline, tempoRestante, tempoInicio,
                    tempoFinal, tempoEmEspera, tempoDeResposta, tempoInicioExecucaoAtual,
                    tempoFinalExecucaoAtual, temposExecucao)
    }

    /**
     * Runs the task for at most `quantum`: the time consumed and the time
     * left add up to the time left before, and either the whole quantum is
     * used or the task has nothing left.
     */
    method Executar(quantum: real) returns (tempoExec: real)
      modifies this`tempoRestante
      ensures tempoExec + tempoRestante == old(tempoRestante)
      ensures tempoExec <= quantum && tempoExec <= old(tempoRestante)
      ensures tempoExec == quantum || tempoRestante == 0.0
      ensures 0.0 <= old(tempoRestante) && 0.0 <= quantum ==> 0.0 <= tempoExec && 0.0 <= tempoRestante
    {
      tempoExec := if tempoRestante <= quantum then tempoRestante else quantum;
      tempoRestante := tempoRestante - tempoExec;
    }
  }
}
