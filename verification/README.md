# Tetris Stack piece manager, modelled in Dafny

The C program keeps the pieces of a Tetris-style game in two fixed-size
containers:

- a circular queue `Fila` of five upcoming pieces;
- a linear stack `Pilha` of up to three reserved pieces.

A menu moves pieces between them. A piece (`Peca`) is a shape tag from
`I`, `O`, `T`, `L` plus an id taken from a global counter. This project models
five parts of the program:

- the pieces and the counter (module `Pieces`);
- the queue (module `CircularQueue`);
- the stack (module `ReserveStack`);
- the two exchange operations (module `Exchange`);
- the state changes of `main`: the setup loop and menu options 1-5 (module `Game`).

Each container is a datatype holding its raw slot sequence and index
fields, exactly as the C structs do. An abstraction function maps that
representation to the logical sequence:

- `CircularQueue.Contents` gives the queue front first, using the display
  loop's index `(frente + i) % 5`;
- `ReserveStack.Contents` gives the stack top first, reading slots `topo`
  down to `0`.

Contracts are stated over that sequence. Every operation is a pure function
or method that returns the new state. A refusal is reported as a boolean.
Removing from an empty container returns the source's sentinel piece
`{'\0', -1}` (`Pieces.Invalid`).

Representation invariants:

- queue: `0 <= tamanho <= 5`, `0 <= frente < 5`, `-1 <= tras < 5`, and
  `(tras + 1) % 5 == (frente + tamanho) % 5`;
- stack: `-1 <= topo <= 2`.

The queue's rear index is not kept in `[0, 5)`: `inicializarFila` sets
`tras` to -1 (Tetrisdefinitivo.c:100), and the model keeps that value.

The triple exchange is modelled by the source's own loop of three pairwise
swaps. Its proof rests on the slots `(frente + i) % 5` for `i = 0..2` being
distinct (`CircularQueue.SlotsDistinct`). Without that, the three swaps
would not combine into one clean exchange.

At the whole-program level, `Game.Invariant` holds after the setup and every
menu turn keeps it. It says:

- the queue is full;
- the ids of all pieces held are pairwise distinct;
- every such id is below the counter.

Arithmetic notes. Every `%` in the source has a non-negative left operand
(`tras + 1 >= 0`, `frente + i >= 0`), so C's truncating remainder and
Dafny's Euclidean one agree. `rand()` is never negative, so `rand() % 4` is
modelled as `roll % 4` over a natural-number `roll`.

## Model

| member | source | states |
|---|---|---|
| Pieces.NextPiece | Tetrisdefinitivo.c:43-49 | The drawn piece's id is the counter's current value and the counter rises by exactly one; the shape is always one of I, O, T, L. |
| Pieces.DrawsIncrease | Tetrisdefinitivo.c:35-49 | Two consecutive draws give strictly increasing ids. |
| CircularQueue.Contents | Tetrisdefinitivo.c:62-64 | The abstraction of the queue: its pieces front first, position i read from slot `(frente + i) % 5`, as the display loop reads them. Its length is `tamanho`. |
| CircularQueue.SlotsDistinct | Tetrisdefinitivo.c:238-242 | The slots `(frente + i) % 5` of logical positions 0 to 4 are pairwise distinct, so the three pairwise swaps of the triple exchange write three different queue slots. |
| CircularQueue.AdvanceFront | Tetrisdefinitivo.c:149-150 | Moving `frente` on by one and decrementing `tamanho` keeps the queue invariant, and position i of the new queue is position i+1 of the old one. |
| CircularQueue.AdvanceRear | Tetrisdefinitivo.c:133-135 | Moving `tras` on by one and incrementing `tamanho` keeps the invariant, and the new rear is the slot just past the last piece. |
| CircularQueue.Init | Tetrisdefinitivo.c:98-102 | Initialisation gives a queue that satisfies the invariant and is empty, whatever the slots held. |
| CircularQueue.IsFull | Tetrisdefinitivo.c:109-111 | The queue is full exactly when it holds five pieces. |
| CircularQueue.IsEmpty | Tetrisdefinitivo.c:118-120 | The queue is empty exactly when its logical sequence is empty. |
| CircularQueue.Enqueue | Tetrisdefinitivo.c:127-136 | The invariant is kept. On a non-full queue the sequence becomes the old one followed by the piece. On a full queue nothing changes. The front never moves, and only the slot past the last piece is written. |
| CircularQueue.Dequeue | Tetrisdefinitivo.c:143-152 | The invariant is kept. On a non-empty queue it returns the first piece and leaves the rest in order, with no slot written. On an empty queue it returns `{'\0', -1}` and the state is unchanged. |
| CircularQueue.EnqueueThenDequeue | Tetrisdefinitivo.c:127-152 | FIFO for one step: on an empty queue the piece comes straight back; otherwise dequeueing after an enqueue gives what dequeueing first and enqueueing after would. |
| CircularQueue.EnqueueAll | Tetrisdefinitivo.c:127-136 | Enqueueing a run that fits appends it to the logical sequence. |
| CircularQueue.Drain | Tetrisdefinitivo.c:143-152 | Dequeueing until empty yields exactly the logical sequence, front first. |
| CircularQueue.FifoOrder | Tetrisdefinitivo.c:127-152 | Up to five pieces enqueued on a fresh queue come out in the order they went in. |
| ReserveStack.Contents | Tetrisdefinitivo.c:83-84 | The abstraction of the stack: its pieces top first, read from slot `topo` down to slot 0, as the display loop reads them. Its length is `topo + 1`. |
| ReserveStack.Init | Tetrisdefinitivo.c:160-162 | Initialisation gives an empty stack over any slot contents. |
| ReserveStack.IsFull | Tetrisdefinitivo.c:169-171 | The stack is full exactly when it holds three pieces. |
| ReserveStack.IsEmpty | Tetrisdefinitivo.c:178-180 | The stack is empty exactly when its logical sequence is empty. |
| ReserveStack.Push | Tetrisdefinitivo.c:187-192 | `-1 <= topo <= 2` is kept. On a non-full stack, `topo` rises by one and the piece goes on top of the old sequence, with lower slots unchanged. On a full stack nothing changes. |
| ReserveStack.Pop | Tetrisdefinitivo.c:199-205 | On a non-empty stack it returns the top piece, lowers `topo` by one and leaves the rest in order, with no slot written. On an empty stack it returns `{'\0', -1}` and the state is unchanged. |
| ReserveStack.PushThenPop | Tetrisdefinitivo.c:187-205 | LIFO for one step: a pop right after a push returns the pushed piece and restores `topo` and the logical stack. |
| ReserveStack.PushAll | Tetrisdefinitivo.c:187-192 | Pushing a run that fits puts it on the stack in reverse order. |
| ReserveStack.PopAll | Tetrisdefinitivo.c:199-205 | Popping until empty yields exactly the logical sequence, top first. |
| ReserveStack.LifoOrder | Tetrisdefinitivo.c:187-205 | Up to three pieces pushed on a fresh stack come off in reverse order. |
| Exchange.SwapFrontWithTop | Tetrisdefinitivo.c:214-225 | Succeeds exactly when both containers are non-empty. The queue front and the stack top then trade places, and all other pieces, every index and every other slot stay the same. When refused, nothing changes. |
| Exchange.SwapThree | Tetrisdefinitivo.c:232-245 | Succeeds exactly when `topo == 2` and `tamanho >= 3`. The queue's first three pieces then become the old stack read from the top, and the stack read from the top becomes the old first three queue pieces. Later queue positions, every untouched slot, the indices and the counts stay the same. When refused, nothing changes. |
| Game.Drawn | Tetrisdefinitivo.c:43-49 | A run of draws gives ids counting up from the counter's value, each with a valid shape. |
| Game.Fill | Tetrisdefinitivo.c:260-262 | The setup loop advances the counter once per iteration; when the draws fit, the queue ends up holding the old pieces followed by the drawn ones. |
| Game.Setup | Tetrisdefinitivo.c:256-262 | After setup the queue is full with ids 0 to 4 in order, the stack is empty, the counter is 5, and the whole-game invariant holds. |
| Game.FirstIds | Tetrisdefinitivo.c:259-262 | Five draws from the initial counter give ids 0, 1, 2, 3, 4. |
| Game.PlayFront | Tetrisdefinitivo.c:281-290 | Option 1 acts exactly when the queue is non-empty. It returns the front piece, and the queue becomes the rest followed by a fresh piece, so its size stays the same. The stack is untouched and the counter rises by one. When refused, nothing changes. |
| Game.Reserve | Tetrisdefinitivo.c:291-303 | Option 2 acts exactly when the queue is non-empty and the stack is not full. The old queue front goes on top of the stack, the queue is refilled with a fresh piece, and the counter rises by one. When refused, nothing changes. |
| Game.UseReserve | Tetrisdefinitivo.c:304-312 | Option 3 acts exactly when the stack is non-empty. It returns the top piece and the stack shrinks by one, while the queue and counter are untouched. When refused, nothing changes. |
| Game.SwapFront | Tetrisdefinitivo.c:313-316 | Option 4 is the single exchange applied to the game state, leaving the counter alone. |
| Game.SwapTriple | Tetrisdefinitivo.c:317-320 | Option 5 is the triple exchange applied to the game state. It leaves the queue size and the counter alone and keeps the whole-game invariant. |
| Game.PlayFrontKeepsInvariant | Tetrisdefinitivo.c:281-290 | Option 1 keeps the queue full and the held ids unique and below the counter. |
| Game.ReserveKeepsInvariant | Tetrisdefinitivo.c:291-303 | Option 2 keeps the queue full and the held ids unique and below the counter. |
| Game.UseReserveKeepsInvariant | Tetrisdefinitivo.c:304-312 | Option 3 keeps the queue full and the held ids unique and below the counter. |
| Game.SwapFrontKeepsInvariant | Tetrisdefinitivo.c:313-316 | Option 4 keeps the queue full and the held ids unique and below the counter. |
| Game.SwapThreeKeepsInvariant | Tetrisdefinitivo.c:232-245 | Whatever satisfies the triple exchange's contract keeps the queue full and the held ids unique and below the counter. |
| Game.Turn | Tetrisdefinitivo.c:280-329 | One menu turn dispatches options 1 to 5 to their operations and keeps the whole-game invariant. Options 1 to 4 give exactly the result of their operation; option 5 gives the triple exchange's guard, its new queue and stack contents, the unchanged counter, and no change when refused. Option 0 and unknown options change nothing. |

## Left out

- Console I/O is not modelled: `printf`, `scanf`, and the messages printed by the exchange functions. A refusal is returned as `done == false` instead.
- `mostrarFila` and `mostrarPilha` are printing routines and are not modelled. Only their index formulas are kept, as the two `Contents` abstraction functions.
- The `do ... while` menu loop is not modelled as a loop. `Game.Turn` models one iteration, and the invariant lemmas carry across any number of them.
- `srand(time(NULL))` and `rand()` are not modelled, because they are foreign randomness. The random value is a `roll` parameter.
- The uninitialised slot arrays of `Fila` and `Pilha` in `main` are parameters of `Init` and `Setup`, because their contents are arbitrary.
- Pieces.NextPiece: the counter is an unbounded integer. Assuming a 32-bit `int`, the source's `proximoId++` overflows during the 2^31-th draw, when it runs at `INT_MAX`. That behaviour is not modelled.
- The global `proximoId` is not modelled as global state. It becomes a `Generator` value that each operation takes and returns.
