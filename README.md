# NoGo exact solver, modelled in Dafny

This project models the core of an exact solver for NoGo. NoGo is Go without
captures or suicide: a move is legal only if the stone's group keeps a liberty and
no adjacent opponent group loses its last one. The player with no legal move loses.

The solver answers a text protocol (GTP). It keeps the board as a padded
one-dimensional vector of cells and plays and undoes moves on it. It decides
positions with a memoised negamax over a transposition table. The table is a
2^30-slot array of buckets of 16-bit entries, addressed by a base-3 position
fingerprint mixed by a linear congruence. A second pass (proof negamax) re-derives
the stored values and flags each entry it confirms. The table can be written to a
binary file and read back. The configured build allocates buckets with libc
(`DefaultMemoryManager`). The source also has an optional pool allocator with
exact-size free lists (`CustomMemoryManager`), which a typedef in configs.hpp can
select instead; it is modelled on its own.

The model follows the source file by file:

| Dafny module (file) | source |
|---|---|
| `Entry` (entry.dfy) | the entry word: code, value bit, proof bit; hash.hpp constants |
| `BucketUtil` (bucket_util.dfy) | `BucketUtil` in hash.cpp: binary search, sorted insert, proof bits |
| `Table` (table.dfy) | the table as a map from bucket index to bucket; clearing and collecting proof flags |
| `Records` (records.dfy) | the byte format of `Hash::store` / `Hash::load` |
| `Fingerprint` (fingerprint.dfy) | the base-3 fingerprint and the linear congruence |
| `HashTable` (hash.dfy) | `class Hash` of hash.cpp |
| `MemoryManager` (memory_manager.dfy) | `CustomMemoryManager` of memory_manager.cpp |
| `BoardUtil` (board_util.dfy) | board_util.cpp: coordinates, point names, board text |
| `Board` (board.dfy) | `NoGoBoard` of board.cpp: liberties, legality, play/undo, move lists |
| `Game` (game.dfy) | the game value that negamax computes, defined independently of the search |
| `Search` (search.dfy) | `Search` of search.cpp: negamax, proof negamax, move ordering |
| `Engine` (nogo_solver.dfy) | `NoGo` of nogo_solver.cpp: return codes and the `line_of_plays` log |
| `Gtp` (gtp.dfy) | gtp_connection.cpp: tokenizer, dispatch, argument conversions, replies |

How the source is represented:
- Objects the source updates in place are classes: `Hash`, `NoGoBoard`, `Search`, `NoGo`, `GtpConnection` and `CustomMemoryManager`.
- `line_of_plays` and the string upper-casing buffer are arrays.
- Buckets are sequences of 16-bit slot values. The bucket pointer array is a map from index to bucket.
- 64-bit wrap-around is written out as `% 2^64`. C++ truncating `/` and `%` are written out as `Quot` and `Rem`.

The search is proved correct against `Game.Value`, the game-theoretic value. For
boards of at most 25 points (the configured 5 x 5 board), the mixed fingerprint
identifies the position (`Fingerprint.KeyIdentifiesPosition`). Under that bound:
- negamax returns the value of the position;
- every entry the table holds records the value of the position it keys;
- proof negamax flags only entries whose value it confirmed.

## Model

| member | source | states |
|---|---|---|
| Entry.FormatEntryRoundTrip | hash.cpp:90-100 | an entry built from a code and a value keeps the code in its low 10 bits and the value at bit 10 once truncated to 16 bits; the proof bit is bit 1 of the value |
| Entry.FormatEntryOfValue | hash.cpp:90-100 | for a value 0 or 1 the stored word is code + 1024*value, reads back that value, and has no proof flag |
| Entry.SetProofKeeps | hash.cpp:334-348 | setting the proof bit keeps the word within 16 bits, keeps code and value, and the flag reads as set |
| Entry.ClearProofKeeps | hash.cpp:175-190 | clearing the proof bit keeps code and value and the flag reads as clear |
| BucketUtil.FindEntrySpec | hash.cpp:322-332 | the reference lookup finds an entry with the code when one exists, and finds nothing exactly when no entry has it |
| BucketUtil.FindEntryIff | hash.cpp:322-332 | in a bucket sorted by code, lookup yields e exactly when e is in the bucket with that code |
| BucketUtil.BinarySearch | hash.cpp:362-383 | a hit returns an index holding the code; a miss returns the insertion point: every earlier code is smaller and every later code is larger |
| BucketUtil.Get | hash.cpp:322-332 | the binary-search lookup agrees with the linear reference lookup on every well-formed bucket |
| BucketUtil.Initialize | hash.cpp:273-278 | a new bucket is well formed and holds no code |
| BucketUtil.InitializeWith | hash.cpp:280-286 | a one-entry bucket has count 1 and holds exactly the truncated entry under its code |
| BucketUtil.InsertAtSpec | hash.cpp:300-320 | inserting at the insertion point keeps the bucket sorted, finds the new entry and changes no other code |
| BucketUtil.Insert | hash.cpp:300-320 | inserting an absent code grows the count by one, lands the entry at the binary-search insertion index, and leaves every other code's entry unchanged |
| BucketUtil.Grow | hash.cpp:306-319 | the shift loop moves the later slots one place right and writes the entry into the gap |
| BucketUtil.SetProofBit | hash.cpp:334-348 | the flag of the code is set, the result is true exactly when it was clear, and the count and every other entry stay |
| BucketUtil.GetProofBit | hash.cpp:350-360 | the result is the proof flag of the entry with the code |
| BucketUtil.ClearedBucketSpec | hash.cpp:175-190 | clearing a bucket keeps it well formed, keeps every code and value, and clears every flag |
| Table.ReplaceBucket | hash.cpp:102-116 | writing back the bucket of hashcode h changes the lookup of h only |
| Table.ClearedSpec | hash.cpp:175-190 | clearing every bucket keeps bucket indices, counts, codes and values and leaves no flag set |
| Table.ProvedMember | hash.cpp:206-217 | the proved part of a bucket holds exactly the entries whose flag is set |
| Table.ProvedSpec | hash.cpp:196-224 | the proof-only table keeps the buckets with a flagged entry, and looks up exactly the flagged entries |
| Records.LERoundTrip | hash.cpp:202-204 | a little-endian number read back from its bytes is the number |
| Records.FullStoreRoundTrip | hash.cpp:192-267 | decoding a full store rebuilds the table and adds the number of stored entries to the size |
| Records.ProofOnlyIsFullOfProved | hash.cpp:206-223 | a proof-only store writes the same bytes as a full store of the proved entries, with no empty record |
| Records.ProofStoreRoundTrip | hash.cpp:192-267 | decoding a proof-only store rebuilds exactly the proved table |
| Records.FullReload | hash.cpp:232-267 | store then load gives every stored entry back with its proof flag cleared |
| Records.ProofOnlyReload | hash.cpp:232-267 | proof-only store then load gives back exactly the proved entries with their flags cleared |
| Fingerprint.PolyTermsAt | hash.cpp:34-37 | each term of the power table is 3^k wrapped to 64 bits |
| Fingerprint.PolySumInjective | hash.cpp:65-76 | two boards of base-3 digits of equal length with the same polynomial value are equal |
| Fingerprint.IncrementalAgrees | hash.cpp:78-83 | adding color*3^k to the fingerprint of a board equals the fingerprint of the board with that empty point filled |
| Fingerprint.SmallBoardFits | hash.cpp:85-88 | on at most 25 points the fingerprint is below 2^40, so it does not wrap |
| Fingerprint.LcgInverse | hash.cpp:85-88 | multiplying by 1037 modulo 2^40 is undone by its inverse |
| Fingerprint.LcgInjective | hash.cpp:85-88 | the linear congruence maps distinct hashcodes below 2^40 to distinct keys |
| Fingerprint.KeyIdentifiesPosition | hash.cpp:65-88 | on at most 25 points, two positions with the same table key are the same position |
| HashTable.Hash.constructor | hash.cpp:13-17 | a new table is empty, with the counters at zero, for the given dimensions |
| HashTable.Hash.Square | hash.cpp:8-11 | a new table for a square board is empty |
| HashTable.Hash.Initialize | hash.cpp:26-38 | the power table holds 3^k mod 2^64 for every point, the table is empty and the counters are kept |
| HashTable.Hash.ChangeBoardsize | hash.cpp:52-57 | the table is emptied and set up for the new dimensions |
| HashTable.Hash.Clear | hash.cpp:59-63 | every bucket is dropped; size and dimensions are kept |
| HashTable.Hash.HashFunc | hash.cpp:65-76 | the Horner loop over the grid rows computes the base-3 value of the cells modulo 2^64 |
| HashTable.Hash.IncrementalHash | hash.cpp:78-83 | the update adds color times the term of the point's canonical exponent, wrapped to 64 bits |
| HashTable.Hash.Get | hash.cpp:118-133 | -1 when the key's bucket or code is absent, otherwise the value bit of that key's own entry |
| HashTable.Hash.GetProofBit | hash.cpp:146-153 | the proof flag of the key's entry |
| HashTable.Hash.Insert | hash.cpp:102-116 | the key now reads the inserted value with no flag, every other key reads as before, and size grows by one |
| HashTable.InsertEntry | hash.cpp:102-115 | the bucket of the key gains the entry (a new bucket when there was none), stays ordered, the key reads the formatted entry and every other key reads as before |
| HashTable.Hash.SetProofBit | hash.cpp:135-144 | the key's flag is set with code and value kept, the result is true exactly when it was clear, and the proof size grows by the result |
| HashTable.Hash.ClearProofBit | hash.cpp:175-190 | the table becomes its cleared form: counts, codes and values kept, no flag set |
| HashTable.Hash.ClearBuckets | hash.cpp:179-189 | the bucket-by-bucket loop leaves exactly the cleared table |
| HashTable.Hash.CollectProved | hash.cpp:208-217 | the temporary bucket holds the flagged entries in order |
| HashTable.Hash.Store | hash.cpp:192-230 | the bytes written are the records of the stored buckets in index order |
| HashTable.Hash.ReadRecords | hash.cpp:248-261 | the read loop gives the decoded table and size |
| HashTable.Hash.ReadRecord | hash.cpp:250-260 | one record read leaves a shaped table, a wrapped size and a later offset, from which the rest of the file decodes to the same result |
| HashTable.Hash.Load | hash.cpp:232-267 | an unopenable file changes nothing and gives ""; otherwise the table is the decoded file with every flag cleared and the size counts the loaded entries |
| HashTable.HashOfBoard | hash.cpp:65-76 | the fingerprint of a board's grid is the base-3 value of its canonical cells |
| HashTable.IncrementalAgreesWithFull | hash.cpp:78-83 | the incremental update of a board's fingerprint equals the full fingerprint after the move |
| MemoryManager.InitialRecycled | memory_manager.cpp:7-13 | every free list starts empty |
| MemoryManager.AddChunk | memory_manager.cpp:95-103 | the small-size array grows by the block, with its length word updated |
| MemoryManager.GetChunk | memory_manager.cpp:105-117 | the last block of a non-empty small-size array is returned and removed; an empty one gives null |
| MemoryManager.Added | memory_manager.cpp:65-77 | freeing a block appends it to its size's list and changes no other list |
| MemoryManager.Taken | memory_manager.cpp:79-93 | taking from an empty list gives null; otherwise the most recently freed block, removed from its list |
| MemoryManager.TakeAfterAdd | memory_manager.cpp:65-93 | taking right after freeing a block returns that block and restores the lists (LIFO) |
| MemoryManager.Moved | memory_manager.cpp:38-54 | the copy puts the source bytes at the destination and changes no byte outside it |
| MemoryManager.CustomMemoryManager.PoolUsage | memory_manager.cpp:119-122 | the bytes used are the distance from the pool start to the cursor |
| MemoryManager.CustomMemoryManager.constructor | memory_manager.cpp:7-13 | an empty pool with the cursor at its start and every free list empty |
| MemoryManager.ReadWriteLE | memory_manager.cpp:71-73 | a number below 256^n written as n little-endian bytes reads back as that number |
| MemoryManager.FiledLink | memory_manager.cpp:65-77 | filing a block of a listed size writes the previous list head into the block's first word, where it reads back, and changes no byte outside that word |
| MemoryManager.FiledKeeps | memory_manager.cpp:35-57 | after a copy and the filing of the old block, the copy is intact unless the link word overlaps it, and bytes outside both the copy and the link word are the old ones |
| MemoryManager.CustomMemoryManager.AddToRecycledList | memory_manager.cpp:65-77 | the free lists become Added of the old lists, and the block's first word holds the previous list head; pool, cursor and end are kept |
| MemoryManager.CustomMemoryManager.GetFromRecycledList | memory_manager.cpp:79-93 | result and lists are Taken of the old lists; nothing else changes |
| MemoryManager.CustomMemoryManager.Malloc | memory_manager.cpp:24-33 | a recycled block of the size when there is one; otherwise the cursor's block, with the cursor advanced and exhaustion reported past the pool end |
| MemoryManager.CustomMemoryManager.Free | memory_manager.cpp:59-63 | the block is appended to its size's free list and its first word links to the previous head |
| MemoryManager.CustomMemoryManager.Realloc | memory_manager.cpp:35-57 | a recycled block of the new size, or the old block extended in place when it ends at the cursor, or fresh pool bytes; a moved block's old place goes to its free list with its first word overwritten by the link; the result starts with the old bytes unless that link word overlaps it, and no byte outside the result and the link word changes |
| BoardUtil.Quot | board_util.cpp:4-35 | C++ division truncates toward zero |
| BoardUtil.Rem | board_util.cpp:4-35 | C++ remainder completes the truncating division and has magnitude below the divisor |
| BoardUtil.Opponent | board_util.cpp:62-65 | BLACK and WHITE swap |
| BoardUtil.CanonicalRoundTrip | board_util.cpp:4-20 | an on-board point maps to a canonical index below h*w that maps back to the point |
| BoardUtil.PointRoundTrip | board_util.cpp:4-20 | every canonical index maps to an on-board point that maps back to it |
| BoardUtil.CanonicalOfCoord | board_util.cpp:4-11 | the point at row r and column c has canonical index (r-1)*w + (c-1) |
| BoardUtil.CoordRoundTripBack | board_util.cpp:22-35 | a row and a column below the stride survive coord_to_point then point_to_coord |
| BoardUtil.HeaderExamples | board_util.hpp:20-75 | the worked examples of the header comment: point 15 on a 5-column board is canonical 7, coordinate (2,3) and "C2" |
| BoardUtil.StoiOfNatToString | board_util.cpp:45-51 | std::stoi reads back the decimal text of every int-sized natural number |
| BoardUtil.StringToPoint | board_util.cpp:45-51 | a parsed point is stride times the row number plus the column letter minus 64; an empty string, missing digits or overflow give nothing |
| BoardUtil.StringPointRoundTrip | board_util.cpp:37-51 | string_to_point reads back point_to_string for every on-board point (up to 63 columns) |
| BoardUtil.GridTextShape | board_util.cpp:67-81 | the board text has one line per row (h-1 newlines) and ends in a space |
| BoardUtil.AppendRow | board_util.cpp:71-77 | the inner loop appends each cell's number and a space |
| BoardUtil.GetTwoDBoard | board_util.cpp:67-81 | the text is the rows, each as its cells' numbers followed by spaces, separated by newlines |
| Board.FreshBoardWellFormed | board.cpp:24-34 | a reset board has BORDER exactly off the board |
| Board.CountOfUpdate | board.cpp:161-179 | changing one cell changes a colour's count by the change at that cell |
| Board.EmptyPointsBelowSpec | board.cpp:81-90 | the empty-point list is increasing and holds exactly the empty cells |
| Board.NoGoBoard.constructor | board.cpp:17-20 | an empty h x w board with BLACK to move |
| Board.NoGoBoard.Reset | board.cpp:24-34 | an empty h x w board with a border ring, stride w+1, and BLACK to move |
| Board.NoGoBoard.InitializeEmptyPoints | board.cpp:97-105 | the cells of rows 1..h, columns 1..w become EMPTY and the rest stay BORDER |
| Board.NoGoBoard.HasLiberty | board.cpp:138-159 | the flood fill answers true exactly when the point's group has an empty neighbour |
| Board.NoGoBoard.IsLegal | board.cpp:54-79 | legal exactly when the point is empty and, with the stone placed, its group and every adjacent opponent group keep a liberty; the board is left as it was |
| Board.NoGoBoard.PlayMove | board.cpp:161-171 | with the check, a legal move places the stone and passes the turn, and an illegal one changes nothing |
| Board.NoGoBoard.UndoMove | board.cpp:173-179 | the point is emptied and the turn passes back |
| Board.NoGoBoard.GetEmptyPoints | board.cpp:81-90 | the empty points in increasing order |
| Board.NoGoBoard.GenerateLegalMoves | board.cpp:209-220 | the empty points at which the colour may legally play, in increasing order |
| Board.NoGoBoard.TwoDBoard | board.cpp:235-247 | row i of the grid is board row h-i, columns 1..w |
| Board.NoGoBoard.IsSurrounded | board.cpp:126-136 | every neighbour is a border or a stone of the colour |
| Board.NoGoBoard.IsEye | board.cpp:107-124 | surrounded, and at most one diagonal opponent stone in the interior, none at the edge |
| Board.SurroundedIllegalForOpponent | board.cpp:126-136 | a point surrounded by a colour and the border is never a legal move for the opponent: the opponent's stone would be a group of one without a liberty |
| Board.EyeIllegalForOpponent | board.cpp:107-124 | an eye of a colour is never a legal move for the opponent |
| Board.LegalAmongSpec | board.cpp:209-220 | the filtered list holds exactly the legal candidates and keeps their order |
| Board.LegalMovesSpec | board.cpp:209-220 | the legal-move list holds exactly the legal points, in increasing order |
| Board.TwoD | board.cpp:235-247 | the grid has h rows of w cells |
| Game.ToMove | board.cpp:161-179 | the player to move alternates with each stone placed, BLACK first |
| Game.PlaceStone | board.cpp:161-171 | a move fills one empty point and passes the turn |
| Game.LiftStone | board.cpp:173-179 | taking a stone off hands the turn back to the player who placed it |
| Game.FreshCountBefore | board.cpp:24-34 | on a reset board the empty cells before row r, column c number exactly the on-board points there |
| Game.FreshToMove | board.cpp:24-34 | a reset board has h*w empty cells, so BLACK is the player to move |
| Game.ValueIff | search.cpp:34-90 | a position is won exactly when some legal move leaves the opponent a lost position, and lost when there is no legal move |
| Game.WinsAmongIff | search.cpp:65-84 | scanning moves in any order finds a win exactly when one exists |
| Search.SoundLookup | search.cpp:38-45 | in a sound table, a stored entry holds the value of the position it keys |
| Search.ProvedLookup | search.cpp:96-101 | in a proof-sound table, a flagged entry holds the value of the position it keys |
| Search.SoundInsert | search.cpp:52-87 | storing a position's true value keeps the table sound |
| Search.SoundSameValues | search.cpp:92-159 | changing only proof flags keeps a sound table sound |
| Search.KeyStillAbsent | search.cpp:65-84 | searching the children adds only positions with fewer empty points, so the parent's key is still absent |
| Search.BonusExact | search.cpp:201-207 | the history bonus is (points - 1 - depth) squared when that is non-negative |
| Search.Search.constructor | search.cpp:21-24 | both history rows start at zero |
| Search.Search.Initialize | search.cpp:26-32 | the board size is recorded and both history rows are zeroed |
| Search.Search.HHistoryHeuristic | search.cpp:161-177 | the index of the first move with the highest history score, 0 when no score beats 0 |
| Search.Search.UpdateHHTable | search.cpp:201-207 | the mover's score at the canonical point grows by the squared bonus wrapped to 64 bits; nothing else changes |
| Search.Search.HEtc | search.cpp:179-194 | the first move whose child the table holds as lost, or -1 when there is none |
| Search.Search.Negamax | search.cpp:34-90 | the result is the game value of the position; the table stays sound and holds that value for the position; a stored answer is returned with table and history untouched |
| Search.Search.Expand | search.cpp:47-89 | for a position the table does not know: the result is its game value, recorded in the table, which stays sound |
| Search.Search.TryMoves | search.cpp:65-89 | the history-ordered loop finds a win exactly when the position is won |
| Search.Search.TryMove | search.cpp:67-74 | 1 minus the searched child's value is the move's value; board and turn are restored |
| Search.Search.ProofNegamax | search.cpp:92-159 | values are never changed, flags are only set on entries whose value is right, and a proved result reports the true value; the value answered is true exactly when the table holds the position as won and the entry is already proved or h_etc finds a move |
| Search.Search.ProveWin | search.cpp:117-137 | reports whether h_etc found a move to a child held as lost (nothing changes when it did not); a win is flagged only after that child is proved |
| Search.Search.ProveLoss | search.cpp:140-158 | a loss is flagged only when every move's child is proved won for the opponent |
| Search.Search.ProofMove | search.cpp:141-149 | a proved child's result is its game value; board and turn are restored |
| Search.ChildLost | search.cpp:57-63 | a legal move whose child the sound table holds as lost wins the position |
| Search.EtcWins | search.cpp:179-194 | the move h_etc finds wins the position |
| Search.RemoveTried | search.cpp:83 | erasing a move that does not win keeps every winning move in the list |
| Search.AbsentAborts | search.cpp:94-105 | as written, an absent key never reaches the "absent" return: the flag lookup comes first and aborts |
| Search.EmptyTableAborts | search.cpp:94-105 | as written, proving any position on an empty table aborts |
| Search.Marked | hash.cpp:135-144 | marking a key sets its flag, keeps its value and changes no other key |
| Search.TerminalAsWrittenFlagsWrongValue | search.cpp:110-115 | as written, a terminal position stored as a win gets flagged, so later calls report a proved wrong value |
| Search.WinAsWrittenFlagsWrongValue | search.cpp:117-137 | as written, a lost position stored as a win gets flagged even though the child was not proved |
| Engine.LoggedPush | nogo_solver.cpp:59-61 | logging a move played on an empty point keeps the log a list of distinct stones |
| Engine.LoggedPop | nogo_solver.cpp:92-105 | dropping the last logged stone keeps the rest of the log valid |
| Engine.NoGo.constructor | nogo_solver.hpp:24-25 | a new engine has an empty log |
| Engine.NoGo.ClearBoard | nogo_solver.cpp:17-22 | an empty board of the same size with BLACK to move, which is the player alternate play gives, and an empty log |
| Engine.NoGo.Boardsize | nogo_solver.cpp:8-15 | board, table and history table are reset for the new size, the log is empty, BLACK is the player to move and the empty table is sound |
| Engine.NoGo.Showboard | nogo_solver.cpp:24-29 | the text of twoD_board, one line per row |
| Engine.NoGo.PlayMove | nogo_solver.cpp:31-62 | -2 for the wrong colour and -1 for an illegal move, both with nothing changed; otherwise 0, with the move played and appended to the log; the player to move stays the one alternate play gives |
| Engine.NoGo.PushLog | nogo_solver.cpp:59-60 | the point is appended to the log and the count in slot 0 grows by one |
| Engine.NoGo.Undo | nogo_solver.cpp:92-105 | -1 on an empty log with nothing changed; otherwise 0, with the last logged stone removed, the turn passed back and the log shortened; the player to move stays the one alternate play gives |
| Engine.NoGo.PlayThenUndo | nogo_solver.cpp:31-105 | a move played and undone leaves board, turn and log as they were |
| Engine.NoGo.GetMove | nogo_solver.cpp:156-178 | when the table holds the position as won, the first legal move whose child it holds as lost; otherwise the random move; either way a legal move, or PASS exactly when there is none |
| Engine.NoGo.TableChoice | nogo_solver.cpp:157-171 | a move exactly when the table holds the position as won and holds some legal move's child as lost; the move is the first such legal move |
| Engine.FirstTableLossAt | nogo_solver.cpp:164-170 | the index where the h_etc scan stops names the first legal move whose child the table holds as lost |
| Engine.NoGo.TableMoveWins | nogo_solver.cpp:156-171 | on a small board with a sound table, the move taken from the table wins |
| Engine.NoGo.TableMoveLegal | nogo_solver.cpp:156-171 | the move taken from the table is legal |
| Engine.NoGo.GenMove | nogo_solver.cpp:64-90 | -2 for the wrong colour; otherwise PASS with nothing changed exactly when there is no legal move, else a legal move played and logged; the table's move when it has one; the player to move stays the one alternate play gives |
| Engine.NoGo.ChooseAndPlay | nogo_solver.cpp:72-89 | for the player to move: PASS exactly when there is no legal move, else a legal move played and logged, the table's when it has one |
| Engine.NoGo.PassOrPlay | nogo_solver.cpp:78-89 | the chosen move is returned; PASS exactly when there is no legal move, with nothing changed, else the legal move played and logged |
| Engine.NoGo.PlayOrRefuse | nogo_solver.cpp:82-89 | a legal point is played, logged and returned; an illegal one is returned negated with nothing changed |
| Engine.NoGo.Solve | nogo_solver.cpp:107-126 | the result is the game value of the position, which the table then holds; board and log are unchanged |
| Engine.NoGo.Prove | nogo_solver.cpp:128-142 | a proved result is flagged in the table and equals the game value; an unknown position gives false, false; the value is true exactly when the table holds the position as won and the entry is proved or h_etc finds a move; a sound table stays sound |
| Engine.NoGo.StoreSolution | nogo_solver.cpp:144-147 | a proof-only store, which loads back as exactly the proved entries |
| Engine.NoGo.PlaysToString | nogo_solver.cpp:180-188 | the names of the logged moves, oldest first |
| Engine.LogText | nogo_solver.cpp:180-188 | the loop over line_of_plays writes the names of slots 1..count |
| Engine.PlaysTextLetters | nogo_solver.cpp:180-188 | on up to 26 columns the non-digit characters of the text are the moves' column letters, one per move, so the text splits back into moves |
| Gtp.Fields | gtp_connection.cpp:29-46 | the token list is never empty |
| Gtp.FieldsShape | gtp_connection.cpp:29-46 | tokens contain no space and only the last may be empty |
| Gtp.FieldsOfJoined | gtp_connection.cpp:29-46 | splitting tokens joined by single spaces gives the tokens back |
| Gtp.JoinedOfFields | gtp_connection.cpp:29-46 | joining the tokens of a single-spaced line gives the line back |
| Gtp.FieldsAfterSpace | gtp_connection.cpp:34-42 | a space then a word after a non-empty token adds that word as a new token |
| Gtp.GetCmd | gtp_connection.cpp:29-52 | the command name is the first token and the arguments are the rest, in order |
| Gtp.TableAgrees | gtp_connection.hpp:12-69 | each command name sits at the same index as its handler |
| Gtp.KnownNameListed | gtp_connection.hpp:12-69 | every known command name is in the name table |
| Gtp.ExecuteCmd | gtp_connection.cpp:55-64 | a listed name gives the marker to run its handler on the arguments; otherwise the reply is "command not found: " and the name |
| Gtp.StringToUpper | gtp_connection.cpp:260-268 | the array becomes its upper-cased form in place |
| Gtp.UpperCopy | gtp_connection.cpp:260-268 | an argument string upper-cased through the in-place routine |
| Gtp.UpperSpec | gtp_connection.cpp:260-268 | exactly the bytes 97..122 change, each by -32; the length is kept, no lower-case letter is left, and a second pass changes nothing |
| Gtp.ColorToInt | gtp_connection.cpp:270-279 | "b" or "B" gives BLACK, "w" or "W" gives WHITE, and anything else gives -1 |
| Gtp.UpperPointString | gtp_connection.cpp:134-136 | a point name on up to 26 columns is unchanged by upper-casing |
| Gtp.GenMoveReplyRoundTrip | gtp_connection.cpp:152-179 | the genmove reply for a played move, upper-cased and parsed as play does, is that move; a refused move is named after "Illegal move: " |
| Gtp.RepliesDistinct | gtp_connection.cpp:126-190 | the three play replies are distinct, and so are the two undo replies |
| Gtp.GtpConnection.constructor | gtp_connection.cpp:8-12 | the connection drives the given engine |
| Gtp.GtpConnection.PlayCmd | gtp_connection.cpp:126-150 | "argument error!" unless two arguments; otherwise "", "illegal move" or "wrong color" as the engine's code says, with the move played only on ""; no reply only for an unparsable point or, for the player to move, a point off the cell array or a legal move with the log full |
| Gtp.GtpConnection.PlayPoint | gtp_connection.cpp:138-149 | for a parsed point: "wrong color", "illegal move" or "" as play_move answers, with the move played only on ""; no reply only for the player to move at a point off the cell array or at a legal point with the log full |
| Gtp.GtpConnection.GenMoveCmd | gtp_connection.cpp:152-179 | "resign" for PASS, "wrong color" for -2, "Illegal move: " and the point for a refused move, else the move's name; no reply only without an argument or, for the player to move, when the log is full and a legal move exists |
| Gtp.GtpConnection.UndoCmd | gtp_connection.cpp:181-190 | "cannot undo: no move has been made" exactly when the log is empty, with nothing changed; otherwise "" with the last move taken back |

## Left out

- File streams: `Hash::store` produces a byte sequence and `Hash::load` takes the file's contents as an optional byte sequence (None when the file does not open).
- HashTable.Hash.Load: requires a file that decodes as whole records with every bucket index below CAPACITY. The source only asserts that the bytes read equal the file length, and an index of CAPACITY or more writes past `m_hashtable` (hash.cpp:252).
- load_solution (nogo_solver.cpp:149-154) is not modelled as an engine method: a loaded table is not known to be sorted by code, which every later table operation assumes. `Hash.Load` models the loading itself.
- The SIGALRM timer, the signal handler, wall-clock timing and node-rate printing; the `print_*` helpers; the `node_count` and `nodes_at_depth` counters. They are instrumentation and do not affect any result.
- The stdin/stdout loop and `respond`. The protocol is modelled as the reply string of each command.
- The command handlers that only print or forward: protocol_version, quit, name, version, komi, list_commands, search_size, proof_size, stats, debug, boardsize_cmd, clear_board_cmd, showboard_cmd, solve_cmd, prove_cmd, store_solution_cmd and load_solution_cmd. The dispatch to them is modelled, and the engine operations they forward to (`ClearBoard`, `Showboard`, `Solve`, `Prove`, `StoreSolution`) are modelled. boardsize_cmd ignores its argument and only calls clear_board and prints a warning (gtp_connection.cpp:92-97).
- The stderr diagnostics: "winning", "losing" and "unknown" in get_move, the boardsize warning, and the messages of prove, solve and load_solution. They do not affect any result.
- `DefaultMemoryManager` and `BaseMemoryManager` are thin wrappers over libc, and so is the `typeid` branch of `free_buckets`. configs.hpp selects the default manager, so table buckets are modelled as values. The custom allocator is a separate state machine.
- The 32 GiB `calloc` arena is an integer address range [pool, end) with a byte map.
- Randomness: `shuffle` and `generate_random_move` call `rand()`. `GetMove`, `GenMove` and `GenMoveCmd` take the random move as a parameter.
- main_solver.cpp (process wiring) and configs.hpp (the constants are used directly).
- `get_raw` (hash.cpp:155-163) is a debugging accessor used by no core operation.
- Search.Search.Negamax, Search.Search.ProofNegamax, Engine.NoGo.Solve and Engine.NoGo.Prove: correctness is proved only for boards of at most 25 points, where the table key identifies the position. On larger boards two positions may share a key, and the source then returns the value of the other position.
- Search.Search.Expand: modelled only for boards of at most 25 points, for the same reason.
- Search.Search.TryMoves: modelled only for boards of at most 25 points, for the same reason.
- Search.Search.TryMove: modelled only for boards of at most 25 points, for the same reason.
- Search.Search.ProveWin: modelled only for boards of at most 25 points, for the same reason.
- Search.Search.ProveLoss: modelled only for boards of at most 25 points, for the same reason.
- Search.Search.ProofMove: modelled only for boards of at most 25 points, for the same reason.
- MemoryManager.CustomMemoryManager.GetFromRecycledList: the next head comes from the modelled free list, not from reading the block's link word. `FiledLink` shows that the link word holds that same head when the block is filed.
- MemoryManager.CustomMemoryManager.Malloc and MemoryManager.CustomMemoryManager.Realloc: when the pool is used up, the source prints a message and ends the process with `exit(0)` (memory_manager.cpp:124-128). The model returns `exhausted` instead and carries on; the state after an `exhausted` result, including Realloc's copy and filing of the old block, has no meaning in the source.
- MemoryManager.CustomMemoryManager.AddToRecycledList, MemoryManager.CustomMemoryManager.Free and MemoryManager.CustomMemoryManager.Realloc: sizes are below RECYCLE_SIZE, the bound of the `recycled_list` array (memory_manager.hpp:9,50). A larger size indexes past that array in the source.
- BoardUtil.StringPointRoundTrip: stated for at most 63 columns. Past that the column letter is a negative 8-bit char.
- Engine.NoGo.PlayMove, Engine.NoGo.GenMove, Engine.NoGo.ChooseAndPlay, Engine.NoGo.PassOrPlay and Engine.NoGo.PlayOrRefuse: a legal move played when all 100 slots of `line_of_plays` are in use is written past the array in the source (nogo_solver.cpp:59-60, 84-85), and a point off the cell array is read out of bounds. These methods require that neither happens. An illegal point or a PASS with a full log is modelled, as the source answers it.
- Gtp.GtpConnection.PlayCmd: gives no reply for a legal move by the player to move when the log is full, or for a point off the cell array. Both are out-of-bounds access in the source.
- Gtp.GtpConnection.GenMoveCmd: gives no reply for the player to move when the log is full and a legal move exists, because the source then logs it past the array.
- Gtp.UpperChar and BoardUtil.SignedChar: command text is taken to be single-byte characters. A character above 255 would take several bytes of the source's `std::string`.

## Findings

| source | as written | input that shows it | evidently intended | confidence | as-written member | corrected member |
|---|---|---|---|---|---|---|
| search.cpp:94-105 | `get_proof_bit` is called before the "absent" check, and it asserts the key is present (hash.cpp:350-360). The model's `Abort` is exact only where the bucket is null, as on an empty table (a null dereference). When the bucket exists but lacks the code, the outcome depends on whether the `assert` at hash.cpp:356 is compiled in; the model treats it as `Abort` too, so the `Absent` branch of the as-written function is never reached | `prove` on any position not yet in the table, e.g. an empty table | return (false, false) for an absent key before reading its flag | not executed | Search.AbsentAborts | Search.Search.ProofNegamax |
| search.cpp:110-115 | the terminal branch sets the proof flag whatever the stored value | a terminal position stored as a win: it is flagged, and the next `prove` reports it as proved with value 1 | set the flag only when the stored value is 0 | not executed | Search.TerminalAsWrittenFlagsWrongValue | Search.Search.ProofNegamax |
| search.cpp:117-137 | the win branch sets the proof flag before looking at the child's result | a position stored as a win whose h_etc child is not proved lost: the parent is flagged anyway | set the flag only when the child is proved and the values agree | not executed | Search.WinAsWrittenFlagsWrongValue | Search.Search.ProveWin |
