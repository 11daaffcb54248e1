# Snake board and coordinate transform, modelled in Dafny

This project models two parts of a small snake game.

- `board.dfy`, module `Board`: the game logic of the board view (`app/views/board.js`). The board is 45 x 45 cells, from a 450-pixel canvas with 10-pixel cells. The snake is a list of cells with the head first. On every tick the head moves one cell in the current direction. If the new head is on a wall (x or y equal to -1 or 45) or on any cell of the current body, the tail included, the game restarts. If it is on the food, the snake grows by one cell, the score goes up by one and new food is placed. Otherwise the tail cell moves to the front. Arrow keys turn the snake: one key press never sets the reverse of the stored direction, but two presses between ticks can (`TwoKeysCanReverse`).
  - The pure rules are functions: `NextHead`, `Collides`, `SpawnFood`, `Turn`, and `Tick`, which gives one tick as a function of the game state.
  - The class `View` holds the view's mutable fields (`snake`, `direction`, `food`, `score`). Its methods `CreateGame`, `CreateSnake`, `CreateFood`, `Step` and `KeyDown` change those fields in place. Each is proved against the pure rules.
  - `ValidGame` is an invariant that every tick keeps:
    - at least five segments, all on the board;
    - no two segments on the same cell;
    - each segment next to the one before it;
    - the food on the board;
    - the score equal to the number of segments grown since the last restart.
- `coords.dfy`, module `Coords`: the transform that stores a list of coordinates as text (`app/transforms/coords.js`). `Serialize` writes one `x,y` line per coordinate and joins the lines with newlines. `Deserialize` splits the text on newlines, then each line on commas, and reads the fields with `parseFloat`. A field that is not a number, or is missing, reads as NaN. The round trip holds for every non-empty list; the empty list comes back as one point with two NaN fields.

The random numbers that `createFood` draws are parameters (`rx`, `ry`, each in [0, 1)). A tick is one call of `View.Step`.

Two facts about the game that the model keeps as the code has them:
- There is no exemption for the tail: moving onto the cell the tail is about to leave counts as a collision and restarts the game (`TailIsAnObstacle`).
- New food is placed anywhere on the board, so it may land under the snake or on the cell just eaten.

## Model

| member | source | states |
|---|---|---|
| Board.NextHead | app/views/board.js:65-84 | the new head is a neighbour of the old head, one step right (x grows), left (x shrinks), up (y shrinks) or down (y grows) |
| Board.NextHeadReversible | app/views/board.js:71-84 | a step in the opposite direction undoes a step |
| Board.Occupies | app/views/board.js:148-150 | the scan of the body is true exactly when the cell is one of the body's segments |
| Board.Collides | app/views/board.js:137-151 | a collision is exactly a wall cell (x or y equal to -1 or 45) or a cell of the current body, tail included |
| Board.NoCollisionStaysInGrid | app/views/board.js:143-145 | from a head on the board, the next cell is a wall exactly when it is off the board, so a move without collision stays on the board |
| Board.InitialBody | app/views/board.js:34-39 | the new snake is (4,0), (3,0), (2,0), (1,0), (0,0), head first |
| Board.Round | app/views/board.js:51-52 | Math.round gives the integer nearest its argument, halves rounded up |
| Board.FoodCoord | app/views/board.js:46-53 | a food coordinate from a random value in [0,1) lies in 0..44 |
| Board.SpawnFood | app/views/board.js:42-54 | the new food cell is on the board |
| Board.ArrowKey | app/views/board.js:194-201 | exactly the key codes 37 to 40 are arrow keys |
| Board.Turn | app/views/board.js:187-204 | the new direction is never the reverse of the old one; non-arrow keys change nothing; an allowed arrow key sets its own direction, and any other outcome leaves the direction as it was |
| Board.TwoKeysCanReverse | app/views/board.js:190-202 | the guard compares with the stored direction: up then left, pressed between two ticks, reverses a right-moving snake, and the next head then hits the second segment |
| Board.NewGame | app/views/board.js:18-28 | a new game has the initial body (five segments headed at (4,0)), direction right, score 0 and the given food |
| Board.Tick | app/views/board.js:65-114 | on a collision the game restarts (initial snake, right, score 0, new food) with no move; on the food the body grows by one with the old body behind the new head, score + 1 and new food; otherwise the length stays, the new head is the computed cell and the rest is the old body without its last cell |
| Board.TailIsAnObstacle | app/views/board.js:90-111 | a six-cell game that satisfies the game invariant and whose next head is its own tail cell restarts: the tail is not exempt |
| Board.NewGameValid | app/views/board.js:18-39 | a new game satisfies the game invariant |
| Board.TickPreservesValid | app/views/board.js:86-114 | every tick keeps the invariant: at least five segments, all on the board, distinct, connected, food on the board, score equal to the growth |
| Board.View.constructor | app/views/board.js:168 | the inserted view holds a new game with food from the drawn random values, and the invariant holds |
| Board.View.CreateGame | app/views/board.js:18-28 | the fields hold a new game: direction right, score 0, the initial snake and new food |
| Board.View.CreateSnake | app/views/board.js:30-40 | the counting loop leaves the snake equal to the initial body |
| Board.View.CreateFood | app/views/board.js:42-54 | the food field becomes the cell made from the two random values |
| Board.View.Step | app/views/board.js:56-114 | the fields after one tick are the tick of the fields before it, and a valid game stays valid |
| Board.View.KeyDown | app/views/board.js:187-204 | the if-chain on the key code sets the direction that Turn gives, never the reverse of the old one, and a valid game stays valid |
| Coords.Split | app/transforms/coords.js:5-6 | splitting gives one more part than there are separators, and no part holds a separator |
| Coords.Join | app/transforms/coords.js:23 | joining no parts gives the empty text, one part gives that part, and more parts start with the first part followed by the separator |
| Coords.JoinSplit | app/transforms/coords.js:5-23 | joining the parts of a split gives the text back |
| Coords.SplitJoin | app/transforms/coords.js:5-23 | splitting a join of one or more separator-free parts gives the parts back |
| Coords.JoinCount | app/transforms/coords.js:17-23 | joining n separator-free parts puts exactly n - 1 separators in the text |
| Coords.NatDigits | app/transforms/coords.js:20 | a printed natural number is one or more decimal digits with no leading zero |
| Coords.NumToString | app/transforms/coords.js:20 | a printed coordinate holds neither a comma nor a newline |
| Coords.LeadingDigits | app/transforms/coords.js:8-9 | the number read is the longest run of digits at the start of the text |
| Coords.ParseFloat | app/transforms/coords.js:8-9 | a field is a number exactly when it starts with a digit, or with a sign followed by a digit; otherwise it is NaN |
| Coords.ParsePrinted | app/transforms/coords.js:8-20 | reading the printed text of a coordinate gives the coordinate back, NaN included |
| Coords.FormatLine | app/transforms/coords.js:20 | a line `x,y` holds no newline |
| Coords.ParseLine | app/transforms/coords.js:6-10 | a line without a comma has NaN as y |
| Coords.ParseLineNoComma | app/transforms/coords.js:6-9 | a line without a comma is read whole as x, and y is NaN |
| Coords.ParseLineFields | app/transforms/coords.js:6-9 | x is read from the text before the first comma, y from the text between the first and the second comma (or the end of the line) |
| Coords.ParseFormattedLine | app/transforms/coords.js:6-20 | reading a formatted line gives the point back |
| Coords.Lines | app/transforms/coords.js:17-21 | there is one line per coordinate, and no line holds a newline |
| Coords.Deserialize | app/transforms/coords.js:4-12 | the result has one point per newline-separated line: the number of newlines plus one |
| Coords.Serialize | app/transforms/coords.js:15-24 | the result is the lines `x,y` in list order joined by newlines: empty for the empty list; otherwise it has n - 1 newlines, splits back into the lines and reads back as the list |
| Coords.RoundTrip | app/transforms/coords.js:4-24 | reading back the text written for a non-empty list gives the list |
| Coords.EmptyDoesNotRoundTrip | app/transforms/coords.js:4-24 | the empty list is written as the empty text, which reads back as one point with two NaN fields |

## Left out

- Drawing is not modelled because it is presentation only: `paintCell`, `clearCanvas`, the score text (`app/views/board.js:116-135`, `177-185`) and the painting calls in `paint`.
- `didInsertElement` is not modelled because it is DOM and timer plumbing: canvas sizing, focus and the 60 ms `setInterval`. One tick is one call of `View.Step`. The constructor stands for the `createGame` call made when the view is inserted.
- `Ember.Logger` calls and `event.preventDefault` are not modelled because they are side effects outside the game state.
- `Math.random` is not modelled: its two values are parameters in [0, 1).
- Board.FoodCoord: the formula is computed exactly on reals, so the floating-point rounding of `random * 440 / 10` is not modelled.
- Board.View.Step: the body is a sequence of cell values. The JavaScript reuses the popped tail object as the new head; object identity is not modelled. The step requires a non-empty snake, because the code reads the head of the array and pops its tail.
- Board.View.constructor: before `createGame` runs, the view's `food` is null. The model has no null cell and starts from a placeholder cell that `createGame` then replaces.
- Coords.ParseFloat: only text written as integers is read. Fractions, exponents, `Infinity` and leading white space are not modelled, because they are floating point. The field is an optional sign, then the longest run of digits; anything after that is ignored, as `parseFloat` ignores it.
- Coords.NumToString: integers print as plain decimal. The exponent form that JavaScript uses from 10^21 up, precision loss beyond 2^53, and negative zero are not modelled.
- Coords.Serialize, Coords.Deserialize: a null or undefined value makes the transform throw (`split` at `app/transforms/coords.js:5`, `forEach` at `:19`). The model's inputs are always a string and a list, so this error path is not modelled.
- The coordinate transform is used by the data store to read and write records (`app/transforms/coords.js:3`, `:14`). The store and the adapter that call it are not part of this model, and neither are multiplayer synchronisation, remote snakes or disconnect handling, which are not in this code.
