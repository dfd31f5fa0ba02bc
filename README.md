# CAV task schedulers, modelled in Dafny

This project models `base_escalonador.py`, a discrete-time simulator of CPU
scheduling for the tasks of a connected autonomous vehicle (CAV). A task
(`TarefaCAV`, here `Tarefas.Tarefa`) has:

- a fixed duration, arrival time, priority and optional deadline;
- fields that the schedulers update as they run it: time left, first start,
  finish, accumulated wait, response time, current burst and the list of
  `(start, end)` bursts.

A scheduler (`EscalonadorCAV` and its eleven subclasses, here the class
`Escalonadores.Escalonador` with a `Politica` field) keeps:

- the task list;
- a simulated clock;
- an overhead counter;
- a shortest-task tracker;
- UG's adaptive time slice.

Its `escalonar` runs every task. The subclasses fall into two groups:

- **Run to completion: FIFO, SJF, non-preemptive priority.** FIFO runs the
  tasks in arrival order. SJF and priority repeatedly pick, among the
  arrived tasks still queued, the shortest one or the one with the largest
  priority value, and run it whole.
- **Time slices: Round Robin, EDF, preemptive priority, UG, and the five
  FutureVision variants.** These repeatedly pick an arrived task and run
  one slice of it. A task with work left pays 0.3 of overhead and is put
  back before the first queued task that arrives after the new clock. A
  finished task records its finish time. When nothing has arrived, the
  clock jumps to `ceil(clock + 1)`.

The quantum schedulers differ only in whom they pick:

- Round Robin picks the first arrived task in queue order.
- EDF picks the first with the earliest deadline.
- Preemptive priority and UG pick the last with the largest priority value.
- FutureVision picks the first task, in increasing remaining-time order,
  that has waited longer than a limit. Failing that, it picks the first
  task of that order. The limit is the mean remaining time plus an arrival
  estimate, which depends on the variant:
  - FutureVision: the positional median;
  - FutureVisionMedia: the mean;
  - FutureVisionMediaIntervalo: the floored midpoint of the extremes;
  - FutureVisionMin: the smallest of the three;
  - FutureVisionMax: the largest of the three.
- UG also grows its slice by one for every dispatch of a task whose urgency
  exceeds `urg_max`. The slice returns to the base quantum when such a task
  finishes.

Modules:

- `Wrappers`: `Option`.
- `Tarefas`: the task class, its snapshot `Vista`, and `executar`.
- `Rajadas`: one time-slice burst as a function on snapshots, and the
  invariant `Consistente` it keeps.
- `Sequenciais`: run-to-completion bursts and the FIFO schedule as
  functions.
- `Ordenacao`: Python's stable `sorted`, and which element lands first or
  last.
- `Selecao`: each policy's choice among the arrived tasks, UG's urgency,
  and the five FutureVision limits.
- `Escalonadores`: the scheduler class, its queue operations, metrics and
  `escalonar` loops.

Every method that changes tasks or the scheduler works on the objects in
place. Its contract relates the new state to a function of the old
snapshots (`Retrato()`). The properties are proved about those functions.

Where the code and its comments disagree, the model follows the code:

- The priority field is commented "the smaller the number, the higher the
  priority", but both priority schedulers and UG pick the largest value.
  Non-preemptive priority takes the first such task (a reversed stable
  sort). Preemptive priority and UG take the last (the end of an ascending
  stable sort).
- SJF, FIFO and non-preemptive priority never decrease `tempo_restante`.
- When SJF finds no arrived task, it runs the previously chosen task again
  without removing anything from the queue. The clock still advances by
  that task's duration, and the task gets a second burst.
- Non-preemptive priority starts a task at the clock rather than at its
  arrival. When nothing has arrived it advances by exactly 1, not to a
  ceiling.
- The quantum schedulers add `start - end of previous burst` to the
  accumulated wait, and `start - 0` on the first burst. So a finished task's
  `tempo_em_espera` is its real waiting time plus its arrival time
  (`Rajadas.Concluida`).
- The quantum schedulers drop a chosen task that has no time left without
  running it.

## Model

| member | source | states |
|---|---|---|
| Tarefas.Tarefa.constructor | base_escalonador.py:16-30 | A new task has its time left equal to its duration, no start, finish, response or bursts, and zero wait |
| Tarefas.Tarefa.Executar | base_escalonador.py:35-39 | The time run plus the new time left equals the old time left; it runs at most the quantum and at most what was left, and either the full quantum or until nothing is left; neither goes negative |
| Rajadas.Max | base_escalonador.py:217 | The burst start is the later of the clock and the arrival, and is one of the two |
| Rajadas.Fatia | base_escalonador.py:220 | The slice run is at most the time left and at most the quantum, and equals one of them |
| Rajadas.InicialConsistente | base_escalonador.py:16-30 | A new task satisfies the burst invariant: no bursts, nothing recorded, nothing run |
| Rajadas.RajadaConsistente | base_escalonador.py:216-235 | One slice keeps the invariant: bursts in time order without overlap, time run plus time left equals the duration, first start, response, current burst and wait all read off the bursts |
| Rajadas.RajadaMedida | base_escalonador.py:216-235 | A slice adds exactly one burst, starting at max(clock, arrival), of positive length at most the quantum; it lowers the time left by exactly that length and never below zero; it runs the full quantum when work is left, and keeps the first start |
| Rajadas.ConcluirConsistente | base_escalonador.py:255-256 | Marking a task finished at the end of its last burst, with nothing left, keeps the invariant |
| Rajadas.ServidaConsistente | base_escalonador.py:216-256 | A dispatch keeps the invariant and adds one burst. The task is finished exactly when nothing is left, and otherwise lost exactly one quantum. The burst ends at or after the old clock and no later than the new clock |
| Rajadas.CronologicosCabem | base_escalonador.py:232 | Bursts in time order fit between the first start and the last end |
| Rajadas.Concluida | base_escalonador.py:222 | A finished task ran exactly its duration, its turnaround is at least its duration, and its accumulated wait is its real waiting time plus its arrival time |
| Rajadas.ExecucaoInteiraExecutada | base_escalonador.py:138-149 | Running a task whole adds one burst of its full duration, keeps the earlier bursts and the time left, and records start, finish, wait and response consistently with that burst |
| Sequenciais.ExecucaoFIFO | base_escalonador.py:136-151 | The FIFO schedule keeps one snapshot per task and gives each a burst |
| Sequenciais.ExecucaoFIFOCada | base_escalonador.py:138-151 | Each task of the FIFO order is run whole from the moment the processor frees up after its predecessors, or from its arrival if later |
| Sequenciais.ExecucaoFIFOPasso | base_escalonador.py:138-151 | Extending the FIFO order by one task appends that task's whole run, and the clock moves to that run's end |
| Sequenciais.RelogioFIFOPrefixo | base_escalonador.py:144-145 | The clock after the first j+1 tasks is the start of task j plus its duration |
| Sequenciais.RelogioFIFOCresce | base_escalonador.py:144-145 | With non-negative durations the FIFO clock never runs backwards, and never falls below where it started |
| Sequenciais.UmaRajadaCada | base_escalonador.py:138-151 | In the FIFO schedule every task gets exactly one new burst after its old ones. The burst starts no earlier than its arrival or than the end of its predecessors, and leaves the time left untouched |
| Sequenciais.SemSobreposicao | base_escalonador.py:136-151 | FIFO runs never start before the initial clock, and an earlier task's run ends before a later task's run starts |
| Sequenciais.PrimeiraExecucao | base_escalonador.py:176-188 | A whole run started after the arrival is a valid re-execution history of the task |
| Sequenciais.NovaExecucao | base_escalonador.py:176-188 | Running an already re-executed task whole again keeps it a valid re-execution history of its original snapshot |
| Sequenciais.ReexecutadaEncerrada | base_escalonador.py:176-188 | After one or more whole runs the task is finished at last start plus duration, started after arriving, waited last start minus arrival, and kept its arrival, duration, priority, deadline and time left |
| Ordenacao.Inserir | base_escalonador.py:134 | Insertion adds exactly the new element: the length grows by one and the contents by that element; its position is stated by `InserirOrdenada` and `InserirComChave` |
| Ordenacao.OrdenarPor | base_escalonador.py:134 | Sorting gives a sequence in ascending key order that is a permutation of the input |
| Ordenacao.OrdenarPorEstavel | base_escalonador.py:134 | The sort is stable: the elements with any given key appear in their original order |
| Ordenacao.OrdenacaoEstavelUnica | base_escalonador.py:134 | Any sorted rearrangement that keeps the order of equal keys equals the sort, so the sort is Python's `sorted` |
| Ordenacao.PrimeiroMinimo | base_escalonador.py:171-174 | The index found has the smallest key, and every earlier element has a strictly larger key |
| Ordenacao.UltimoMaximo | base_escalonador.py:393-397 | The index found has the largest key, and every later element has a strictly smaller key |
| Ordenacao.PrimeiroMaximo | base_escalonador.py:349-352 | The index found has the largest key, and every earlier element has a strictly smaller key |
| Ordenacao.PrimeiroDaOrdenacao | base_escalonador.py:171-174 | The head of the ascending stable sort is the first element with the smallest key |
| Ordenacao.UltimoDaOrdenacao | base_escalonador.py:393-397 | The last element of the ascending stable sort is the last element with the largest key |
| Ordenacao.PrimeiroDaOrdenacaoInversa | base_escalonador.py:349-352 | The head of the reversed stable sort is the first element with the largest key |
| Ordenacao.OrdenacaoLex | base_escalonador.py:562 | Stably sorting position-tagged elements orders them by key and then by original position |
| Selecao.PrimeiroPelaOrdenacao | base_escalonador.py:171-174 | `sorted(c, key=f)[0]` is a task with the smallest key, and no earlier task has that key |
| Selecao.UltimoPelaOrdenacao | base_escalonador.py:393-397 | `sorted(c, key=f)[-1]` is a task with the largest key, and no later task has that key |
| Selecao.PrimeiroPelaOrdenacaoInversa | base_escalonador.py:349-352 | `sorted(c, key=f, reverse=True)[0]` is a task with the largest key, and no earlier task has that key |
| Selecao.SelecaoSJF | base_escalonador.py:171-174 | SJF picks an arrived task of shortest duration, the first among ties |
| Selecao.SelecaoEDF | base_escalonador.py:283-287 | EDF picks an arrived task with the earliest deadline, the first among ties |
| Selecao.SelecaoPrioridadeNP | base_escalonador.py:349-355 | Non-preemptive priority picks an arrived task with the largest priority value, the first among ties |
| Selecao.SelecaoPrioridadeP | base_escalonador.py:393-397 | Preemptive priority and UG pick an arrived task with the largest priority value, the last among ties |
| Selecao.Urgencia | base_escalonador.py:450-452 | With no slack (deadline at most the time left) the urgency is exactly `urg_max + 1`, so above `urg_max`; otherwise urgency times the slack equals the priority |
| Selecao.Urgente | base_escalonador.py:476-481 | A task counts as urgent exactly when it has no slack or its priority exceeds `urg_max` times its slack |
| Selecao.ChegadasExtremas | base_escalonador.py:734-740 | The running minimum and maximum of the arrivals bound every arrival and are attained by some task |
| Selecao.MediaEntreExtremos | base_escalonador.py:632-645 | The mean arrival lies between the earliest and the latest arrival |
| Selecao.EstimativaEntreChegadas | base_escalonador.py:528-546 | Every variant's arrival estimate is at most the latest arrival and more than the earliest minus one. It is at least the earliest for the median, the mean and the maximum variants; the flooring in the midpoint is what can take the other two below |
| Selecao.PrimeiroAcima | base_escalonador.py:568-573 | The position found is the first, in the given order, of a task waiting longer than the limit; every task before it waits at most the limit |
| Selecao.EscolhaFVAcima | base_escalonador.py:562-577 | When some arrived task waits longer than the limit, FutureVision picks such a task, and no waiting-too-long task precedes it in increasing remaining-time order (ties by queue order) |
| Selecao.EscolhaFVAbaixo | base_escalonador.py:562-575 | When no arrived task waits longer than the limit, FutureVision picks the first task with the least time left |
| Selecao.EscolherFV | base_escalonador.py:562-577 | The selection loop, which recomputes the limit for every candidate, picks the task of the FutureVision choice |
| Selecao.PrimeiroAcimaUnico | base_escalonador.py:568-573 | The first position over the limit is determined by its defining properties |
| Selecao.CalcularLimite | base_escalonador.py:528-546 | The accumulating loop of `limite` computes each variant's limit: mean time left plus the arrival estimate, and 0 for no tasks |
| Escalonadores.Retratos | base_escalonador.py:15-30 | The snapshots of a task list follow it position by position |
| Escalonadores.Teto | base_escalonador.py:210-212 | `math.ceil`: the least integer not below its argument |
| Escalonadores.Chegaram | base_escalonador.py:209 | Every task returned is a queued task whose arrival is at most the clock (that every such queued entry is returned, in queue order, is `ChegaramIndice` and `ChegaramOrdem`) |
| Escalonadores.Remover | base_escalonador.py:215 | `deque.remove` takes out one occurrence of the task and leaves the queue alone when it is absent |
| Escalonadores.PrimeiraChegadaApos | base_escalonador.py:245-250 | The reinsertion point is the first queued task arriving after the clock; every task before it arrived by then |
| Escalonadores.PrimeiraChegadaAposUnica | base_escalonador.py:245-250 | That reinsertion point is determined by its defining properties |
| Escalonadores.Reinsercao | base_escalonador.py:244-252 | Reinsertion adds the task exactly once to the queue's contents |
| Escalonadores.Reinserir | base_escalonador.py:244-252 | The source's reinsertion loop, with its empty-queue and append-at-end branches, computes the reinsertion |
| Escalonadores.ChegaramDistintas | base_escalonador.py:209 | Filtering a queue without repeats gives a list without repeats |
| Escalonadores.RemoverDistintas | base_escalonador.py:215 | Removing a task from a queue without repeats leaves it absent and the queue without repeats |
| Escalonadores.ReinsercaoDistintas | base_escalonador.py:244-252 | Reinserting a task that is not queued keeps the queue without repeats |
| Escalonadores.PesoDecresce | base_escalonador.py:233 | A slice that leaves work behind lowers the number of slices the task can still take |
| Escalonadores.OciosidadeDecresce | base_escalonador.py:210-212 | An idle jump of at least one unit moves the clock closer to the last arrival |
| Escalonadores.Escolha | base_escalonador.py:214 | Each quantum policy's choice is one of the arrived tasks |
| Escalonadores.SomaEsperas | base_escalonador.py:108-126 | Over the finished tasks the two metric lists have the same length, and the waits sum to the turnarounds minus the durations |
| Escalonadores.EsperaMediaPorTurnaround | base_escalonador.py:108-126 | Both averages exist exactly when some task finished, and then the mean wait is the mean turnaround minus the mean duration |
| Escalonadores.EsperasNaoNegativas | base_escalonador.py:118-126 | Every wait of a finished, consistent task is non-negative |
| Escalonadores.EsperaMediaNaoNegativa | base_escalonador.py:118-126 | The mean wait of consistent tasks is non-negative whenever it exists |
| Escalonadores.FilaAposAtendimento | base_escalonador.py:215-252 | After a dispatch the queue has no repeats and no new tasks; the served task is queued exactly when it is unfinished, and every other task's membership is unchanged |
| Escalonadores.ValidasAposAtendimento | base_escalonador.py:215-256 | Replacing the served task's snapshot by a valid one keeps every task valid under the new queue and the later clock |
| Escalonadores.DescartePreserva | base_escalonador.py:215-216 | Dropping a chosen task with no time left keeps the loop invariant and lowers the pending work |
| Escalonadores.AtendimentoPreserva | base_escalonador.py:214-256 | One dispatch keeps the loop invariant. That covers the tasks being consistent, the queue holding distinct listed tasks, and the overhead being 0.3 per unfinishing burst. It also strictly lowers the pending work |
| Escalonadores.TrocaPreserva | base_escalonador.py:214-256 | Any valid successor snapshot with one more burst, and less remaining work when requeued, keeps the invariant and lowers the pending work |
| Escalonadores.InicioValido | base_escalonador.py:202-206 | Fresh tasks, all queued, satisfy the loop invariant with zero added overhead |
| Escalonadores.Reordenacao | base_escalonador.py:202 | Rearranging the task list keeps the scheduler invariant, distinctness and the presence of deadlines |
| Escalonadores.NovasReordenadas | base_escalonador.py:202 | Sorting fresh tasks yields fresh snapshots |
| Escalonadores.EsperaDecresce | base_escalonador.py:346-348 | With nothing arrived, non-preemptive priority's one-unit wait brings the clock closer to the last arrival |
| Escalonadores.SequenciaInicial | base_escalonador.py:340-344 | At the start of SJF or non-preemptive priority every task is queued and untouched |
| Escalonadores.RetiradaPreserva | base_escalonador.py:355-366 | Running a queued task whole and removing it keeps every task either untouched and queued or validly re-executed, and shrinks the queue |
| Escalonadores.RepeticaoPreserva | base_escalonador.py:176-188 | SJF's rerun of an already removed task keeps the run invariant |
| Escalonadores.SequenciaFinal | base_escalonador.py:340-366 | With the queue empty every task was validly re-executed, with exactly one new burst when no rerun can happen |
| Escalonadores.EscalaDecresce | base_escalonador.py:176-183 | Advancing the clock by at least the shortest duration lowers the step count to the horizon |
| Escalonadores.OciosidadeEmDecresce | base_escalonador.py:176-183 | A stale SJF rerun that starts before the last arrival moves the clock measurably closer to it |
| Escalonadores.ChegaramIndice | base_escalonador.py:209 | Every queued entry that has arrived is among the arrived tasks |
| Escalonadores.ChegaramOrdem | base_escalonador.py:209 | Two arrived queue entries keep their relative order among the arrived tasks |
| Escalonadores.ChegaramPrimeira | base_escalonador.py:209-214 | The first arrived task is the first queued entry that has arrived; every entry before it arrives later than the clock |
| Escalonadores.ChegaramConcatena | base_escalonador.py:209 | Filtering the arrived tasks of a split queue gives the filtered parts, concatenated |
| Escalonadores.RemoverPrimeira | base_escalonador.py:215 | Removing a queued task cuts out exactly its first occurrence and keeps the rest in order |
| Escalonadores.RemoverEm | base_escalonador.py:215 | Given the first occurrence of a task, `deque.remove` cuts out exactly that entry |
| Escalonadores.RemoverContida | base_escalonador.py:215 | Removing a queued task shortens the queue and keeps it within the task list |
| Escalonadores.DistintasPermutacao | base_escalonador.py:202 | Sorting (any rearrangement) of a list without repeats has no repeats |
| Escalonadores.PendenciaDecresce | base_escalonador.py:214-256 | When no task's remaining weight grows and one task's drops, the pending work drops |
| Escalonadores.PesosAposAtendimento | base_escalonador.py:215-252 | When a dispatch changes only the served task's snapshot and queue membership, and lowers its weight, the pending work drops |
| Escalonadores.RelogioAvanca | base_escalonador.py:210-212 | Moving the clock forward keeps the loop invariant |
| Escalonadores.NaoFinaisAtualizada | base_escalonador.py:239-242 | Replacing one task's snapshot changes the count of unfinishing bursts by that task's difference |
| Escalonadores.IterarEstavel | base_escalonador.py:208 | Once a `while` loop's condition fails, further iterations leave its state alone |
| Escalonadores.FinalUnico | base_escalonador.py:208 | A loop run has at most one final state |
| Escalonadores.TerminaEm | base_escalonador.py:208 | A state with the loop condition false, reached after some iterations, is the run's final state |
| Escalonadores.PassoS | base_escalonador.py:170-188 | One SJF iteration keeps the step invariant, runs `EscolhaS`'s task whole from max(clock, arrival) and moves the clock to its end; the queue is unchanged exactly when nothing has arrived, and shrinks otherwise |
| Escalonadores.EscolhaS | base_escalonador.py:170-174 | With arrivals, SJF takes a queued arrived task of shortest duration, first among ties; with none, the previous iteration's task |
| Escalonadores.PassoSRetirada | base_escalonador.py:171-188 | With arrivals, an SJF iteration is the removal of the `k`-th arrived task and its whole run from max(clock, arrival) |
| Escalonadores.PassoSRepetida | base_escalonador.py:176-188 | With nothing arrived, an SJF iteration is a whole rerun of the previous task, the queue unchanged |
| Escalonadores.FimSJF | base_escalonador.py:170 | Iterations that reach an empty queue are the end of SJF's run |
| Escalonadores.PassoNP | base_escalonador.py:344-366 | One non-preemptive priority iteration keeps the step invariant; with nothing arrived it only moves the clock by 1; otherwise it shrinks the queue, runs `EscolhaNP`'s task whole from the clock, and moves the clock by its duration |
| Escalonadores.EscolhaNP | base_escalonador.py:345-352 | Non-preemptive priority takes a queued arrived task with the largest priority value, first among ties |
| Escalonadores.PassoNPRetirada | base_escalonador.py:349-366 | With arrivals, a non-preemptive priority iteration is the removal of the `k`-th arrived task and its whole run from the clock |
| Escalonadores.FimNP | base_escalonador.py:344 | Iterations that reach an empty queue are the end of non-preemptive priority's run |
| Escalonadores.Escalonador.PassoQ | base_escalonador.py:208-256 | One iteration of a quantum scheduler keeps the loop's state invariant (see `PassoQOcioso` and `PassoQEscolhido` for what it does) |
| Escalonadores.Escalonador.PassoQOcioso | base_escalonador.py:209-212 | With nothing arrived, an iteration only moves the clock, to `ceil(clock + 1)` |
| Escalonadores.Escalonador.PassoQEscolhido | base_escalonador.py:209-256 | With arrivals, an iteration takes care of the arrived task the policy picks |
| Escalonadores.Escalonador.TratamentoServido | base_escalonador.py:215-256 | Taking care of a task with time left: one slice with UG's slice rule, 0.3 of overhead and reinsertion when work is left, removal otherwise |
| Escalonadores.Escalonador.IterarPassoQ | base_escalonador.py:208-256 | A non-empty queue after n iterations, followed by one `PassoQ`, is the state after n + 1 |
| Escalonadores.Escalonador.Escolher | base_escalonador.py:209-214 | Computes the arrived tasks and the index of the policy's pick among them, changing nothing |
| Escalonadores.Escalonador.Esperar | base_escalonador.py:210-212 | The idle branch does what `PassoQ` prescribes and brings the clock closer to the last arrival |
| Escalonadores.Escalonador.Tratar | base_escalonador.py:213-256 | The dispatch branch does what `PassoQ` prescribes, keeps the invariant and lowers the pending work |
| Escalonadores.Escalonador.Avancar | base_escalonador.py:208-256 | Each loop iteration turns the state after n `PassoQ` iterations into the state after n + 1, lowering the pending work or the idle time |
| Escalonadores.Escalonador.Percorrer | base_escalonador.py:208-256 | The `while fila` loop ends with an empty queue in the state reached by iterating `PassoQ` from the start, with the invariant kept |
| Escalonadores.Escalonador.Ordenar | base_escalonador.py:202 | The list becomes its stable sort by arrival, the tasks themselves untouched |
| Escalonadores.Escalonador.Inicio | base_escalonador.py:202-206 | With every task fresh and queued, the loop invariant holds at the start |
| Selecao.SelecaoFV | base_escalonador.py:562-577 | FutureVision's choice, with each variant's limit, is an index of an arrived task |
| Selecao.Localizar | base_escalonador.py:562 | Every arrived task appears in FutureVision's sorted list, tagged with its position |
| Selecao.RotuloValido | base_escalonador.py:562 | Every entry of FutureVision's sorted list is an arrived task tagged with its own position |
| Selecao.OrdemFVLex | base_escalonador.py:562 | FutureVision's sort orders by time left and, among ties, by queue order |
| Selecao.MediaPorLimitada | base_escalonador.py:528-546 | A mean of values between two bounds lies between them |
| Ordenacao.InserirOrdenada | base_escalonador.py:134 | Insertion keeps a sequence sorted |
| Ordenacao.InserirComChave | base_escalonador.py:134 | Insertion puts the new element in front of the elements with the same key, keeping their order |
| Ordenacao.OrdenadasIguais | base_escalonador.py:134 | Two sorted sequences that agree key by key are equal |
| Ordenacao.InserirUltimo | base_escalonador.py:393-397 | After insertion the last element is the new one exactly when its key is larger than the old last key |
| Escalonadores.Escalonador.constructor | base_escalonador.py:47-51 | A new scheduler has no tasks, no shortest task, zero overhead, the clock at 0 and UG's slice at the quantum |
| Escalonadores.Escalonador.AdicionarTarefa | base_escalonador.py:53-60 | The task is appended. The tracker takes it when it is empty or the task is strictly shorter. If the tracker held the first shortest task before, it still does |
| Escalonadores.MenorPorAdicaoPrimeiro | base_escalonador.py:53-60 | Adding tasks one by one leaves in the tracker exactly the first task of least duration, and nothing for an empty list |
| Escalonadores.IndiceDoMenor | base_escalonador.py:53-60 | The tracker's task sits at an index with the least duration, and every earlier task is strictly longer |
| Escalonadores.PrimeiroMinimoUnico | base_escalonador.py:53-60 | The first index of least duration is determined by its defining properties |
| Escalonadores.Escalonador.RegistrarSobrecarga | base_escalonador.py:67-69 | The overhead grows by exactly the given time |
| Escalonadores.Escalonador.CalcularTurnaroundMedio | base_escalonador.py:108-116 | The loop returns the mean of finish minus arrival over the finished tasks, and None when none finished |
| Escalonadores.Escalonador.CalcularTempoEmEsperaMedio | base_escalonador.py:118-126 | The loop returns the mean of finish minus arrival minus duration over the finished tasks, and None when none finished |
| Escalonadores.Escalonador.Despachar | base_escalonador.py:217-235 | The task's new fields are one slice of its old snapshot from the old clock, and the clock moves to the burst's end |
| Escalonadores.Escalonador.Servir | base_escalonador.py:216-256 | A dispatch with fixed slice updates only the served task. It adds 0.3 to overhead and clock exactly when work is left, and marks the task finished otherwise |
| Escalonadores.Escalonador.Atender | base_escalonador.py:473-519 | UG's dispatch: an urgent task runs with the slice grown by one, which returns to the quantum when the task finishes; the task is then reinserted or dropped from the queue |
| Escalonadores.Escalonador.Devolver | base_escalonador.py:220-252 | A fixed-slice dispatch followed by reinsertion when work is left, which happens exactly when the old time left exceeded the slice, or by removal otherwise |
| Escalonadores.Escalonador.Selecionar | base_escalonador.py:214-215 | The arrived task picked is the policy's choice: RR the first, EDF the earliest deadline, priority and UG the last of largest priority, FutureVision its limit rule |
| Escalonadores.Escalonador.Passo | base_escalonador.py:208-256 | One loop iteration does exactly what `PassoQ` prescribes, keeps the loop invariant, and either lowers the pending work or, idle, jumps the clock closer to the last arrival |
| Escalonadores.Escalonador.Processar | base_escalonador.py:215-256 | Removing the chosen task and serving or dropping it does what `Tratamento` prescribes, keeps the invariant and lowers the pending work |
| Escalonadores.Escalonador.Servico | base_escalonador.py:216-256 | Serving a task with work left, with UG's slice rule, does what `Tratamento` prescribes, keeps the invariant and lowers the pending work |
| Escalonadores.Escalonador.EscalonarComQuantum | base_escalonador.py:200-259 | The time-slice schedulers terminate with the task list stably sorted by arrival and every task consistent and finished (or never run for lack of work). The overhead grew by 0.3 per burst that left work behind. The final tasks, clock, overhead and slice are the final state of `PassoQ` iterated from the sorted tasks, all queued, with the clock at the first arrival. With no tasks the clock and the slice stay as they were |
| Escalonadores.Escalonador.Rodar | base_escalonador.py:205-256 | From the first arrival, emptying the queue leaves every task consistent and done, with the overhead accounted for, in the final state of the `PassoQ` iterations |
| Escalonadores.Escalonador.OrdenarPorChegada | base_escalonador.py:202 | The task list becomes its stable sort by arrival: the same tasks in the same state, keeping the scheduler invariant, distinctness and deadlines |
| Escalonadores.Escalonador.Esvaziar | base_escalonador.py:208-256 | The loop ends (pending work, then idle time, decrease) with every task consistent and done, the overhead accounted for, and the scheduler in the final state of the `PassoQ` iterations from its old state |
| Escalonadores.Escalonador.Encerramento | base_escalonador.py:208 | An empty queue means every task is done and the overhead counts exactly the bursts that left work |
| Escalonadores.Escalonador.ExecutarInteira | base_escalonador.py:138-151 | A whole run from a start: one burst of the full duration, finish and clock at its end, wait and response from arrival to start |
| Escalonadores.Escalonador.EscalonarFIFO | base_escalonador.py:132-156 | The list is stably sorted by arrival; from the first arrival each task is run whole in that order, the clock ends where the FIFO schedule ends, and no overhead is added |
| Escalonadores.Escalonador.RodarFIFO | base_escalonador.py:136-151 | On the sorted list, starting from the first arrival, the tasks follow the FIFO schedule |
| Escalonadores.Escalonador.ExecutarEmOrdem | base_escalonador.py:138-151 | The for-loop leaves each task as the FIFO schedule from the old clock prescribes, and the clock at its end |
| Escalonadores.Escalonador.ExecutarFIFO | base_escalonador.py:139-151 | One iteration extends the FIFO schedule by the next task |
| Escalonadores.Escalonador.EscalonarSJF | base_escalonador.py:162-193 | The list is stably sorted by arrival, and each task ends as one or more whole runs of its snapshot started after it arrived; the tasks and clock are the final state of `PassoS` iterated from the sorted tasks with the clock at the first arrival; with no tasks the clock stays as it was; no overhead is added |
| Escalonadores.Escalonador.RodarSJF | base_escalonador.py:168-188 | From the first arrival, every task ends validly re-executed, in the final state of the `PassoS` iterations |
| Escalonadores.Escalonador.CorrerSJF | base_escalonador.py:170-188 | The SJF loop, started with the first task arrived, terminates with every task validly re-executed, in the final state of the `PassoS` iterations |
| Escalonadores.Escalonador.EsvaziarSJF | base_escalonador.py:170-188 | Emptying the queue, by removals or time-consuming reruns, leaves every task validly re-executed, in the final state of the `PassoS` iterations |
| Escalonadores.Escalonador.TerminadoSJF | base_escalonador.py:170 | With the queue empty, every task was validly re-executed |
| Escalonadores.Escalonador.AvancarSJF | base_escalonador.py:170-188 | One iteration does what `PassoS` prescribes, keeps the run invariant, and shrinks the queue or moves the clock closer to the last arrival |
| Escalonadores.Escalonador.PassoSJF | base_escalonador.py:170-188 | With arrivals, the shortest arrived task (first among ties) is removed and run whole from max(clock, arrival). Without arrivals the queue is unchanged and the previous task runs again. Either way the clock ends at the run's end, and the new state is `PassoS` of the old |
| Escalonadores.Escalonador.RetirarSJF | base_escalonador.py:171-188 | The chosen task is the SJF choice; it leaves the queue and runs whole from max(clock, arrival), as `PassoS` prescribes |
| Escalonadores.Escalonador.RepetirSJF | base_escalonador.py:176-188 | With nothing arrived, the previous task runs whole again, as `PassoS` prescribes, and the clock advances by at least the shortest duration |
| Escalonadores.Escalonador.EscalonarPrioridadeNP | base_escalonador.py:335-372 | The list is stably sorted by arrival, and each task ends with exactly one new burst, a whole run of its snapshot started after it arrived; the tasks and clock are the final state of `PassoNP` iterated from the sorted tasks with the clock at the first arrival; with no tasks the clock stays as it was; no overhead is added |
| Escalonadores.Escalonador.RodarPrioridadeNP | base_escalonador.py:340-366 | From the first arrival, every task gets exactly one whole run, in the final state of the `PassoNP` iterations |
| Escalonadores.Escalonador.CorrerPrioridadeNP | base_escalonador.py:344-366 | The loop terminates with exactly one whole run per task, in the final state of the `PassoNP` iterations |
| Escalonadores.Escalonador.TerminadoNP | base_escalonador.py:344 | With the queue empty, every task has exactly one new whole run |
| Escalonadores.Escalonador.AvancarPrioridadeNP | base_escalonador.py:344-366 | One iteration does what `PassoNP` prescribes, keeps the run invariant, and shrinks the queue or moves the clock closer to the last arrival |
| Escalonadores.Escalonador.PassoPrioridadeNP | base_escalonador.py:345-366 | Without arrivals the clock advances by 1 and nothing changes. Otherwise the arrived task with the largest priority (first among ties) is removed and run whole from the clock, which advances by its duration. The new state is `PassoNP` of the old |
| Escalonadores.Escalonador.Retirar | base_escalonador.py:352-366 | Removing a queued task and running it whole keeps the run invariant |
| Escalonadores.Escalonador.Repetir | base_escalonador.py:176-188 | Running an already removed task whole again keeps the run invariant |
| Escalonadores.Escalonador.ExecutarRetratada | base_escalonador.py:176-188 | A whole run changes only that task's snapshot |

## Left out

- `criar_tarefas`, `main` and the `__main__` block are left out. They
  draw random tasks, read input, and build tables and plots with pandas and
  matplotlib.
- `exibir_sobrecarga` and `calcular_e_exibir_metricas` are left out
  because they only print; the averages they print are modelled.
- The `CAV` wrapper class is left out. It only forwards tasks to a
  scheduler.
- `TarefaCAV.__str__` is left out (text output). `nome` and
  `possivelmente_catastrofico` are kept as fields, but no policy reads them.
- `time.sleep` is left out, as are the commented-out prints and the
  `tempo_aguardando` value that FutureVision computes for a debug print
  only.
- Floating point is not modelled: times are exact reals. The model
  therefore says nothing about rounding in the 0.3 overhead or in the
  divisions.
- UG's default `urg_max = 1/2` is the constant `URG_MAX_PADRAO`. The
  method takes `urg_max` as a parameter.
- EscalonarComQuantum: requires every task to carry a deadline under EDF
  and UG (`PrazosPresentes`). With a missing deadline the source raises
  while sorting or computing urgency, and that error path is not modelled.
- EscalonarComQuantum: requires a positive quantum, fresh tasks (`Novas`)
  and no task added twice (`Distintas`). The other schedulers also require
  `Distintas`. With a repeated task the source's `deque.remove` acts on the
  first copy, and the model does not follow that aliasing.
- Remover: the source's `deque.remove` raises `ValueError` when the task
  is not queued; the model returns the queue unchanged. The schedulers only
  remove a task taken from the arrived, queued tasks, so that case never
  arises.
- Escalonadores.Escalonador.PassoQ: its own contract states only that the
  invariant is kept; what an iteration does is stated by `PassoQOcioso`,
  `PassoQEscolhido` and `TratamentoServido`.
- EscalonarSJF: requires positive durations, since a zero-length stale
  rerun would never advance the clock and the loop would not end.
- The abstract `escalonar` of the base class has no behaviour of its own.
  Each concrete `escalonar` is one of the modelled methods.
