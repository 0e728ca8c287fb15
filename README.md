# Elimination game and PDF question-answering script, modelled in Dafny

The repository holds two programs. This project models the self-contained logic of each.

**myfirstclass.cpp (module `EliminationGame`, file `elimination_game.dfy`).**
The program reads `n` and `m`. It refuses bad input with exit code 1. Then it:
- marks `n` cells of a 1000-cell array alive;
- walks round the circle of cells, counting live ones and eliminating every `m`-th, until one is left;
- prints the 1-based position of each live cell.

The program is modelled as it is written: `Initialise`, `Eliminate`, `Step` and `Report` work on an `array<int>` updated in place.

The elimination loop is proved against an abstract game (`Survivor`). That game is played on the list of live positions (`Alive`), and it is proved to be won by the player that the Josephus recurrence names. The recurrence is J(1) = 0 and J(k) = (J(k-1) + m) mod k. As a result, `Play` promises:
- the exit code;
- that exactly one number is printed, Josephus(n, m) + 1;
- the final contents of the array.

**RAG.py (module `Rag`, file `rag.dfy`).**
The script does four self-contained things, each modelled:
- It chooses a PDF from the files found (`get_pdf_file`): through the numbered menu and its retry loop when there are several files.
- It writes the chunks of the PDF to the vector store in batches of five, with a progress report after each batch. This happens only when the store directory does not exist yet.
- It tells questions from empty lines and exit words (`q`, `exit`, `退出`, in any letter case).
- For each question, it joins the retrieved passages into the context with blank lines and fills the prompt template.

The libraries are parameters:
- the chunks are an input sequence;
- an insert into the store is recorded as the batch it writes;
- retrieval is a function from the question to the passages.

Console input is one sequence of lines. The PDF selection reads from its front, and the conversation reads the lines after the accepted selection.

## Model

| member | source | states |
|---|---|---|
| `EliminationGame.Play` | myfirstclass.cpp:9-40 | Exit code 1 exactly when n < m, m < 2 or n > 1000, printing nothing. Otherwise code 0 and exactly one number printed, the 1-based Josephus survivor Josephus(n, m) + 1. In the final array, cell j is 0 exactly when j ≥ n or j is the survivor, and every cell is 0 or 1 |
| `EliminationGame.Rejected` | myfirstclass.cpp:9 | (Definition) the refused inputs, n < m, m < 2 or n > 1000; `Play` returns 1 exactly on them |
| `EliminationGame.Initialise` | myfirstclass.cpp:15-18 | Cells 0..n-1 are 0 afterwards; cells from n on are unchanged |
| `EliminationGame.Eliminate` | myfirstclass.cpp:20-32 | Starting from n live cells, the loop terminates (lexicographic measure: remaining, m - count, distance to the next live cell). Exactly one cell below n is left alive, and it is cell Josephus(n, m). A cell only ever changes from 0 to 1, and only below n |
| `EliminationGame.Step` | myfirstclass.cpp:21-31 | One pass of the loop body. The new index is (i + 1) % n. If cell i was 0 and this is the m-th count, the array is the old one with cell i set to 1, count becomes 0 and remaining drops by one. Otherwise the array and remaining are unchanged, and count goes up by one exactly when cell i was 0. It keeps 0 ≤ i < n, 0 ≤ count < m, 1 ≤ remaining ≤ n, remaining == number of zero cells, and cells in {0,1}. It keeps the winner of the resumed abstract game. It only turns 0-cells below n into 1. It decreases the loop measure |
| `EliminationGame.Report` | myfirstclass.cpp:34-38 | The numbers printed are the 1-based positions of the zero cells below n, in increasing order |
| `EliminationGame.WalkStart` | myfirstclass.cpp:13-20 | The state at loop entry (i = 0, count = 0, remaining = n, all cells 0) satisfies the loop invariant and resumes the whole game from position 0 |
| `EliminationGame.WalkEnd` | myfirstclass.cpp:21 | When remaining = 1, the only live cell is the winner of the game |
| `EliminationGame.SkipMarked` | myfirstclass.cpp:22-31 | Passing an eliminated cell keeps the invariant and the winner, and shortens the distance to the next live cell |
| `EliminationGame.CountLive` | myfirstclass.cpp:22-31 | Counting a live cell that is not the m-th keeps the invariant and the winner |
| `EliminationGame.MarkLive` | myfirstclass.cpp:25-31 | Marking the m-th live cell, resetting count and decrementing remaining keeps the invariant and the winner |
| `EliminationGame.MarkCells` | myfirstclass.cpp:26-28 | Setting a live cell to 1 removes exactly that cell from the list of live cells, and the walk's next cell has the same rank, or 0 after wrapping |
| `EliminationGame.Alive` | myfirstclass.cpp:22-35 | The listed indices are in range and their cells are 0 |
| `EliminationGame.AliveComplete` | myfirstclass.cpp:22-35 | Every zero cell is listed, so a cell is listed exactly when it is 0 |
| `EliminationGame.AliveIncreasing` | myfirstclass.cpp:34-38 | The live cells are listed in strictly increasing order |
| `EliminationGame.AliveOfZeros` | myfirstclass.cpp:15-18 | An all-zero row lists every position 0..n-1 |
| `EliminationGame.AliveRank` | myfirstclass.cpp:22-25 | A live cell i is the live cell whose rank is the number of live cells before it |
| `EliminationGame.AliveMark` | myfirstclass.cpp:26 | Setting a live cell to 1 removes that cell, and only it, from the list of live cells |
| `EliminationGame.AlivePrefixStep` | myfirstclass.cpp:22 | One more cell adds one live cell exactly when it is 0 |
| `EliminationGame.GapStep` | myfirstclass.cpp:22-31 | Stepping over a 1-cell brings the walk exactly one step closer to the next live cell |
| `EliminationGame.Gap` | myfirstclass.cpp:21-31 | The distance to the next live cell is less than one full round |
| `EliminationGame.FirstAliveFrom` | myfirstclass.cpp:22-31 | The first live cell at or after i. It is 0, and every cell between i and it is not |
| `EliminationGame.Next` | myfirstclass.cpp:31 | The index after i round the circle is below n; `NextIsMod` shows it is (i + 1) % n |
| `EliminationGame.NextIsMod` | myfirstclass.cpp:31 | (i + 1) % n is the next index round the circle |
| `EliminationGame.Survivor` | myfirstclass.cpp:21-32 | The winner of the abstract game is one of the live players |
| `EliminationGame.SurvivorResume` | myfirstclass.cpp:23 | Counting one more player and moving on does not change the winner |
| `EliminationGame.SurvivorEliminate` | myfirstclass.cpp:25-28 | Counting the m-th player eliminates that player, and the count restarts at the next player |
| `EliminationGame.SurvivorIsJosephus` | myfirstclass.cpp:20-38 | The game started at a given player is won by the player the Josephus recurrence names, counted on from there |
| `EliminationGame.ShiftArith` | myfirstclass.cpp:25-31 | One round of the recurrence: after the first elimination at r, the smaller game's winner index t maps back to t or t + 1 in the larger circle |
| `EliminationGame.JosephusFromFirst` | myfirstclass.cpp:25-31 | The winner's offset from the start equals the offset from the first eliminated player, plus one more place |
| `EliminationGame.GameWinner` | myfirstclass.cpp:20-38 | The game of n people started at position 0 is won by position Josephus(n, m) |
| `EliminationGame.JosephusRecurrence` | myfirstclass.cpp:20-38 | Josephus(k, m) == (Josephus(k - 1, m) + m) % k for k ≥ 2 |
| `EliminationGame.AdvanceIsMod` | myfirstclass.cpp:31 | Moving d places round a circle of k from p lands on (p + d) % k |
| `EliminationGame.FinalCells` | myfirstclass.cpp:34-38 | Once one live cell w is left below n, cell j of the final array is 0 exactly when j ≥ n or j = w, and every cell is 0 or 1 |
| `EliminationGame.OnePrinted` | myfirstclass.cpp:34-38 | With a single live cell w, exactly one number is printed, w + 1 |
| `Rag.Batches` | RAG.py:87-88 | (Specification function) the batches `splits[i:i+5]` for i = from, from + 5, ... below the chunk count; `BatchesFlatten` and `BatchesShape` state their properties |
| `Rag.Progress` | RAG.py:87-89 | (Specification function) the report `i + len(splits[i:i+5])` after each of those batches; `ProgressShape` states its properties |
| `Rag.IndexSplits` | RAG.py:86-89 | The loop's batches and reports are exactly `Batches(splits, 0)` and `Progress(len, 0)`, whose properties `BatchingFromStart` states |
| `Rag.BatchingFromStart` | RAG.py:86-89 | There are ceil(len / 5) batches. Batch b is `splits[5b : 5b + 5]`, clamped at the end. Concatenated, the batches give `splits` back. Report b is min(5(b + 1), len); the reports rise strictly and the last is len. No chunks means no batches |
| `Rag.BatchesFlatten` | RAG.py:87-88 | The batches, concatenated, are the chunks from the starting offset on: nothing missing, repeated or reordered |
| `Rag.BatchesShape` | RAG.py:87-88 | The number of batches, and each batch as a clamped five-chunk slice |
| `Rag.ProgressShape` | RAG.py:89 | Each report is the number of chunks written so far; the reports rise strictly and end at the total |
| `Rag.TwelveChunks` | RAG.py:86-89 | Twelve chunks take three inserts of 5, 5 and 2 chunks, reported as 5, 10 and 12 |
| `Rag.OpenStore` | RAG.py:67-95 | An existing store is reused and nothing is written. Otherwise, the chunks are written by the batching loop, with the properties above |
| `Rag.Lower` | RAG.py:103 | Same length. No ASCII capital is left. Each capital becomes the small letter at the same place in the alphabet, and every other character is kept |
| `Rag.LowerIdempotent` | RAG.py:103 | Lower-casing an already lower-cased line changes nothing |
| `Rag.Classify` | RAG.py:101-103 | A line is skipped exactly when it is empty. It ends the session exactly when it is non-empty and its lower-cased form is `q`, `exit` or `退出`. Otherwise it is asked unchanged |
| `Rag.QuitIgnoresCase` | RAG.py:103 | Two lines that differ only in letter case either both end the session or neither does |
| `Rag.ExitWordExamples` | RAG.py:103 | `Q`, `EXIT`, `eXiT` and `退出` end the session; `quit` and a single space are asked |
| `Rag.Asked` | RAG.py:99-103 | (Specification function) the questions asked for the input lines |
| `Rag.AskedStopsAtQuit` | RAG.py:103 | Nothing typed after an exit word is asked |
| `Rag.AskedAreQuestions` | RAG.py:101-103 | Every question asked is a typed line that is non-empty and not an exit word |
| `Rag.AskedSplit` | RAG.py:99-103 | Before the first exit word, what the lines ask is what a front part asks followed by what the rest asks |
| `Rag.AskedKeepsQuestion` | RAG.py:101-103 | Every non-empty, non-exit line before the first exit word is asked, at its place between the questions of the lines before and after it |
| `Rag.Converse` | RAG.py:99-123 | The questions answered are exactly `Asked(lines)`, in order. The prompt for question k is the template filled with the context of the passages retrieved for it, and with the question |
| `Rag.Join` | RAG.py:108 | (Definition) `sep.join(parts)`; `JoinPart`, `JoinSeparator` and `JoinLength` state its properties |
| `Rag.PageContents` | RAG.py:108 | (Definition) the `page_content` of each retrieved passage, in retrieval order |
| `Rag.Context` | RAG.py:108 | (Definition) the passages' texts joined by a blank line; `ContextHoldsPassage` states its property |
| `Rag.JoinPart` | RAG.py:108 | Every passage appears verbatim in the joined text at its place, in order, with no deduplication |
| `Rag.JoinSeparator` | RAG.py:108 | Exactly one separator stands between consecutive passages |
| `Rag.JoinLength` | RAG.py:108 | The joined text's length is the sum of the passage lengths plus one separator between each pair |
| `Rag.ContextHoldsPassage` | RAG.py:108 | Each retrieved passage appears verbatim in the context at its place in retrieval order |
| `Rag.Prompt` | RAG.py:110-123 | (Definition) the f-string template: `PromptHead`, the context, `PromptMiddle`, the question and `PromptTail`, with the template's line breaks and indentation; `PromptQuotes` and `PromptHoldsPassage` state its properties |
| `Rag.PromptQuotes` | RAG.py:110-123 | The prompt is the fixed text with the context and the question each verbatim in its place |
| `Rag.TemplateHoldsPassage` | RAG.py:108-123 | With any fixed text before and after the context, each retrieved passage appears verbatim inside the context part, at its place |
| `Rag.PromptHoldsPassage` | RAG.py:108-123 | Each retrieved passage appears verbatim in the prompt's reference-material section |
| `Rag.IsDigits` | RAG.py:44 | (Definition) `selection.isdigit()` on ASCII: non-empty and all decimal digits |
| `Rag.ParseNat` | RAG.py:44-45 | (Definition) `int(selection)` on a string of decimal digits; `ParseDecimal` shows it reads back printed numbers |
| `Rag.ValidSelection` | RAG.py:44 | (Definition) the acceptance test: all digits and 1 ≤ int ≤ number of files; `GetPdfFile` and `MenuNumberSelects` use it |
| `Rag.Decimal` | RAG.py:40 | The number printed in the menu is a string of decimal digits |
| `Rag.ParseDecimal` | RAG.py:40-44 | Reading back a printed menu number gives that number |
| `Rag.MenuNumberSelects` | RAG.py:39-45 | Typing the number shown next to a file is an accepted selection, and it picks that file |
| `Rag.GetPdfFile` | RAG.py:20-46 | No file gives no choice. One file is taken without reading input. Otherwise the first answer that is all digits and between 1 and the number of files selects `files[int - 1]`, and every earlier answer was invalid. If no answer is valid there is no choice, after every answer was read. Any file chosen is one of the files |
| `Rag.RunScript` | RAG.py:49-123 | One stream of console lines. No PDF gives a run that stops. A single PDF is used directly and reads no line. With two or more, the run continues exactly when some line is a valid selection; it uses the file the first valid line numbers, every earlier line was refused, and `selectionLines` counts the lines read. Any run that continues is on one of the files. An existing store writes nothing. Otherwise the batches and reports are exactly `Batches(splits, 0)` and `Progress(len, 0)`, which concatenate back to the chunks. The questions asked are exactly `Asked` of the lines after the selection, each with its prompt as `Converse` says |
| `Rag.SelectionThenQuestions` | RAG.py:43-103 | With two files and the lines `x`, `2`, `hello`, `q`: `x` is refused and `2` selects. Of the lines that follow, only `hello` is asked |

## Left out

- Console input and output: `scanf_s` and `input()` become parameters, and `printf` and `print` become returned values. The progress text, warnings and the streamed answer text are not modelled.
- The embedding model, the vector store, the PDF loader and the text splitter (RAG.py:61, 77-83, 94): the chunks are an input sequence, and a store insert is recorded as its batch.
- `similarity_search(question, k=10)` (RAG.py:106): retrieval is a function parameter, so the bound of ten passages is not modelled.
- The chat model (`ollama.chat`, RAG.py:126-131): the model stops at the prompt that would be sent.
- The time measurements and the `time.sleep` pause (RAG.py:90, 105-107, 125, 132-135): they have no effect on the logic.
- The filesystem: `glob("*.pdf")` (RAG.py:25) is the `files` parameter, `os.path.exists(DB_PATH)` (RAG.py:67, 73) is the `storeExists` parameter, and the working-directory change for a frozen executable (RAG.py:51-53) is left out. Loading the chosen PDF (RAG.py:77-80) is external: in the model, `splits` is a parameter not tied to the chosen file.
- Exceptions (RAG.py:137-138, 142-148) are not modelled:
  - When console input runs out, the model's loops stop.
  - In Python, `input()` would raise instead. In the session loop, the `EOFError` is caught at RAG.py:137-138 and the loop goes round again; `input()` raises again each time, so the script prints the error forever.
  - In the selection loop, the error escapes to the top-level handler.
  - `Rag.GetPdfFile` reports `NoAnswer` in that case, and `Rag.RunScript` then stops.
- Unicode behaviour of `str.lower()` and `str.isdigit()`:
  - `Rag.Lower` lower-cases ASCII letters only. The exit words' lowercase forms are all ASCII (or `退出`, which has no case), but non-ASCII capitals in other lines are not lowered.
  - `Rag.IsDigits` accepts only ASCII digits, not other Unicode decimal digits.
- The leading and trailing whitespace of the prompt is reproduced as the f-string writes it (20-space indentation). The model does not interpret it further.
- `EliminationGame.Eliminate`: termination is proved via a lexicographic measure, not the bound of at most n·m loop passes.
- Machine-integer overflow: `n` is at most 1000 and every value stays below it.
- `EliminationGame.Play`: the values are read by `scanf_s` and passed as parameters. A failed read leaves `n` and `m` uninitialised, which the model does not capture.
