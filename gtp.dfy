/**
 * The text-protocol front end (gtp_connection.hpp, gtp_connection.cpp): splitting a
 * command line into a command name and arguments, looking the name up in the
 * command table, the letter case and colour conversions of the arguments, and the
 * replies of the play, genmove and undo commands.
 *
 * A reply is an Option: None stands for a command the source does not answer
 * because it ends in an uncaught exception or an out-of-bounds access.
 */
module Gtp {
  import opened BoardUtil
  import opened Board
  import opened Engine

  // ---------------------------------------------------------------------------
  // get_cmd: the fields of a line

  /** No space in s. */
  predicate Word(s: string)
  {
    forall k :: 0 <= k < |s| ==> s[k] != ' '
  }

  /**
   * The fields after one more character, the last field being the one in progress:
   * a non-space extends it; a space closes it, and a closed field that is empty is
   * dropped.
   */
  function Step(fields: seq<string>, ch: char): (next: seq<string>)
    requires |fields| >= 1
    ensures |next| >= 1
  {
    var current := fields[|fields| - 1];
    if ch != ' ' then fields[|fields| - 1 := current + [ch]]
    else if current == "" then fields
    else fields + [""]
  }

  /**
   * The fields of a command line, a character at a time: the pieces between
   * spaces, empty pieces dropped, except that the piece after the last space is
   * always kept.
   */
  function Fields(line: string): (fields: seq<string>)
    ensures |fields| >= 1
    decreases |line|
  {
    if line == [] then [""] else Step(Fields(line[..|line| - 1]), line[|line| - 1])
  }

  lemma FieldsStep(line: string, ch: char)
    ensures Fields(line + [ch]) == Step(Fields(line), ch)
  {
    assert (line + [ch])[..|line|] == line;
  }

  /** What get_cmd can produce: space-free fields, all but the last non-empty. */
  predicate FieldList(fields: seq<string>)
  {
    && |fields| >= 1
    && (forall k :: 0 <= k < |fields| ==> Word(fields[k]))
    && (forall k :: 0 <= k < |fields| - 1 ==> fields[k] != "")
  }

  /** A step keeps a field list a field list; its last field is empty exactly after a space. */
  lemma StepShape(fields: seq<string>, ch: char)
    requires FieldList(fields)
    ensures FieldList(Step(fields, ch))
    ensures var next := Step(fields, ch); next[|next| - 1] == "" <==> ch == ' '
  {
    var n := |fields|;
    var current := fields[n - 1];
    var next := Step(fields, ch);
    if ch != ' ' {
      assert next == fields[n - 1 := current + [ch]];
      assert Word(current + [ch]) by {
        assert forall k :: 0 <= k < |current| ==> (current + [ch])[k] == current[k];
      }
      forall k | 0 <= k < n - 1 ensures next[k] == fields[k] {
      }
      assert |current + [ch]| > 0;
    } else if current != "" {
      assert next == fields + [""];
      forall k | 0 <= k < n ensures next[k] == fields[k] {
      }
    }
  }

  /**
   * Every line has at least one field; no field holds a space and only the last may
   * be empty. The last field is empty exactly when the line is empty or ends in a space.
   */
  lemma {:induction false} FieldsShape(line: string)
    ensures FieldList(Fields(line))
    ensures var fields := Fields(line);
      fields[|fields| - 1] == "" <==> line == [] || line[|line| - 1] == ' '
    decreases |line|
  {
    if line != [] {
      var pre := line[..|line| - 1];
      FieldsShape(pre);
      StepShape(Fields(pre), line[|line| - 1]);
    }
  }

  /** The fields joined back with single spaces. */
  function Joined(fields: seq<string>): string
    requires |fields| >= 1
    decreases |fields|
  {
    if |fields| == 1 then fields[0]
    else Joined(fields[..|fields| - 1]) + [' '] + fields[|fields| - 1]
  }

  /** Replacing the element after a prefix. */
  lemma UpdateAfter(init: seq<string>, y: string, z: string)
    ensures (init + [y])[|init| := z] == init + [z]
  {
    var a, b := (init + [y])[|init| := z], init + [z];
    assert |a| == |b|;
    forall k | 0 <= k < |a| ensures a[k] == b[k] {
    }
  }

  /** A line without spaces is a single field. */
  lemma {:induction false} FieldsOfWord(word: string)
    requires Word(word)
    ensures Fields(word) == [word]
    decreases |word|
  {
    if word != [] {
      var init, ch := word[..|word| - 1], word[|word| - 1];
      assert Word(init);
      FieldsOfWord(init);
      assert init + [ch] == word;
      FieldsStep(init, ch);
      UpdateAfter([], init, word);
    }
  }

  /**
   * A space after a non-empty field in progress, then a word: the fields so far and
   * that word as one more field.
   */
  lemma {:induction false} FieldsAfterSpace(line: string, word: string)
    requires var fields := Fields(line); fields[|fields| - 1] != ""
    requires Word(word)
    ensures Fields(line + [' '] + word) == Fields(line) + [word]
    decreases |word|
  {
    var fields := Fields(line);
    if word == [] {
      assert line + [' '] + word == line + [' '];
      FieldsStep(line, ' ');
    } else {
      var init, ch := word[..|word| - 1], word[|word| - 1];
      assert Word(init);
      FieldsAfterSpace(line, init);
      assert line + [' '] + word == (line + [' '] + init) + [ch];
      FieldsStep(line + [' '] + init, ch);
      assert init + [ch] == word;
      UpdateAfter(fields, init, word);
    }
  }

  /** Splitting a field list joined with single spaces gives the list back. */
  lemma {:induction false} FieldsOfJoined(fields: seq<string>)
    requires FieldList(fields)
    ensures Fields(Joined(fields)) == fields
    decreases |fields|
  {
    var last := fields[|fields| - 1];
    if |fields| == 1 {
      FieldsOfWord(last);
    } else {
      var init := fields[..|fields| - 1];
      assert FieldList(init) by {
        forall k | 0 <= k < |init| ensures Word(init[k]) && init[k] != "" {
          assert init[k] == fields[k];
        }
      }
      FieldsOfJoined(init);
      assert init[|init| - 1] == fields[|fields| - 2];
      FieldsAfterSpace(Joined(init), last);
      assert fields == init + [last];
    }
  }

  /** A line with no leading space and no two spaces in a row. */
  predicate SingleSpaced(line: string)
  {
    && (|line| > 0 ==> line[0] != ' ')
    && forall j :: 0 <= j < |line| - 1 ==> !(line[j] == ' ' && line[j + 1] == ' ')
  }

  /** Joining the fields of a singly spaced line with single spaces gives the line back. */
  lemma {:induction false} JoinedOfFields(line: string)
    requires SingleSpaced(line)
    ensures Joined(Fields(line)) == line
    decreases |line|
  {
    if line != [] {
      var pre, ch := line[..|line| - 1], line[|line| - 1];
      assert line == pre + [ch];
      assert SingleSpaced(pre) by {
        forall j | 0 <= j < |pre| - 1 ensures !(pre[j] == ' ' && pre[j + 1] == ' ') {
          assert pre[j] == line[j] && pre[j + 1] == line[j + 1];
        }
      }
      JoinedOfFields(pre);
      FieldsShape(pre);
      FieldsStep(pre, ch);
      var prev := Fields(pre);
      var n := |prev|;
      if ch != ' ' {
        JoinExtendLast(prev, ch);
      } else {
        assert pre != [] && pre[|pre| - 1] != ' ';
        assert Fields(line) == prev + [""];
        assert (prev + [""])[..n] == prev;
        assert Joined(prev + [""]) == pre + [' '] + "";
      }
    }
  }

  /** Extending the last field by a character extends the joined text by it. */
  lemma JoinExtendLast(fields: seq<string>, ch: char)
    requires |fields| >= 1
    ensures var n := |fields|;
      Joined(fields[n - 1 := fields[n - 1] + [ch]]) == Joined(fields) + [ch]
  {
    var n := |fields|;
    var next := fields[n - 1 := fields[n - 1] + [ch]];
    assert next[..n - 1] == fields[..n - 1] && next[n - 1] == fields[n - 1] + [ch];
  }

  /** One step of get_cmd's scan keeps the fields found plus the field in progress equal to Fields of the prefix. */
  lemma ScanStep(line: string, i: nat, head: nat, elements: seq<string>)
    requires head <= i < |line| && elements + [line[head..i]] == Fields(line[..i])
    ensures line[i] == ' ' ==>
      (if head < i then elements + [line[head..i]] else elements) + [line[i + 1..i + 1]] == Fields(line[..i + 1])
    ensures line[i] != ' ' ==> elements + [line[head..i + 1]] == Fields(line[..i + 1])
  {
    var prev := elements + [line[head..i]];
    assert line[..i + 1] == line[..i] + [line[i]];
    FieldsStep(line[..i], line[i]);
    if line[i] == ' ' {
      assert line[i + 1..i + 1] == "";
    } else {
      assert line[head..i + 1] == line[head..i] + [line[i]];
      assert prev[|prev| - 1 := line[head..i + 1]] == elements + [line[head..i + 1]];
    }
  }

  /**
   * get_cmd: scan the line, cutting a field at each space; the command name is the
   * first field and the arguments are the others, in order.
   */
  method GetCmd(line: string) returns (name: string, args: seq<string>)
    ensures [name] + args == Fields(line)
  {
    var elements: seq<string> := [];
    var head := 0;
    var i := 0;
    while i < |line|
      invariant 0 <= head <= i <= |line|
      invariant elements + [line[head..i]] == Fields(line[..i])
    {
      ScanStep(line, i, head, elements);
      if line[i] == ' ' {
        if head < i {
          elements := elements + [line[head..i]];
        }
        head := i + 1;
      }
      i := i + 1;
    }
    assert line[..i] == line;
    elements := elements + [line[head..]];
    name := elements[0];
    args := elements[1..];
  }

  // ---------------------------------------------------------------------------
  // execute_cmd: the command table

  datatype Command =
    | Play | GenMove | Undo | ProtocolVersion | Quit | Name | Version | BoardSize
    | ClearBoard | ShowBoard | Komi | ListCommands | Solve | Prove | StoreSolution
    | LoadSolution | SearchSize | ProofSize | Stats | Debug

  /** command_names. */
  const CommandNames: seq<string> := [
    "play", "genmove", "undo", "protocol_version", "quit", "name", "version",
    "boardsize", "clear_board", "showboard", "komi", "list_commands", "solve",
    "prove", "store_solution", "load_solution", "search_size", "proof_size",
    "stats", "debug"]

  /** commands: the handler at the same index as its name. */
  const Handlers: seq<Command> := [
    Play, GenMove, Undo, ProtocolVersion, Quit, Name, Version,
    BoardSize, ClearBoard, ShowBoard, Komi, ListCommands, Solve,
    Prove, StoreSolution, LoadSolution, SearchSize, ProofSize,
    Stats, Debug]

  /** The handler each command name stands for, name by name. */
  function CommandOf(name: string): Option<Command>
  {
    match name
    case "play" => Some(Play)
    case "genmove" => Some(GenMove)
    case "undo" => Some(Undo)
    case "protocol_version" => Some(ProtocolVersion)
    case "quit" => Some(Quit)
    case "name" => Some(Name)
    case "version" => Some(Version)
    case "boardsize" => Some(BoardSize)
    case "clear_board" => Some(ClearBoard)
    case "showboard" => Some(ShowBoard)
    case "komi" => Some(Komi)
    case "list_commands" => Some(ListCommands)
    case "solve" => Some(Solve)
    case "prove" => Some(Prove)
    case "store_solution" => Some(StoreSolution)
    case "load_solution" => Some(LoadSolution)
    case "search_size" => Some(SearchSize)
    case "proof_size" => Some(ProofSize)
    case "stats" => Some(Stats)
    case "debug" => Some(Debug)
    case _ => None
  }

  /** The table pairs every name with the handler CommandOf gives it. */
  lemma TableAgrees(i: nat)
    requires i < |CommandNames|
    ensures |Handlers| == |CommandNames| && CommandOf(CommandNames[i]) == Some(Handlers[i])
  {
  }

  /** A name CommandOf knows is in the table. */
  lemma KnownNameListed(name: string)
    requires CommandOf(name).Some?
    ensures name in CommandNames
  {
    var k := match name
      case "play" => 0 case "genmove" => 1 case "undo" => 2 case "protocol_version" => 3
      case "quit" => 4 case "name" => 5 case "version" => 6 case "boardsize" => 7
      case "clear_board" => 8 case "showboard" => 9 case "komi" => 10 case "list_commands" => 11
      case "solve" => 12 case "prove" => 13 case "store_solution" => 14 case "load_solution" => 15
      case "search_size" => 16 case "proof_size" => 17 case "stats" => 18 case _ => 19;
    assert CommandNames[k] == name;
  }

  datatype Dispatch = Run(command: Command, args: seq<string>) | NotFound(reply: string)

  /**
   * execute_cmd: the handler at the first index whose name matches, run on the
   * arguments; "command not found: " and the name when no name matches.
   */
  method ExecuteCmd(name: string, args: seq<string>) returns (d: Dispatch)
    ensures CommandOf(name).Some? ==> d == Run(CommandOf(name).value, args)
    ensures CommandOf(name).None? ==> d == NotFound("command not found: " + name)
  {
    var i := 0;
    while i < |CommandNames|
      invariant 0 <= i <= |CommandNames|
      invariant name !in CommandNames[..i]
    {
      if CommandNames[i] == name {
        TableAgrees(i);
        return Run(Handlers[i], args);
      }
      assert CommandNames[..i + 1] == CommandNames[..i] + [CommandNames[i]];
      i := i + 1;
    }
    assert CommandNames[..i] == CommandNames;
    if CommandOf(name).Some? {
      KnownNameListed(name);
    }
    d := NotFound("command not found: " + name);
  }

  // ---------------------------------------------------------------------------
  // Argument conversions

  /** A byte of 'a'..'z' loses 32 and becomes the capital; every other byte stays. */
  function UpperChar(ch: char): char
  {
    if 97 <= ch as int <= 122 then (ch as int - 32) as char else ch
  }

  function Upper(s: string): string
  {
    seq(|s|, k requires 0 <= k < |s| => UpperChar(s[k]))
  }

  /** string_to_upper, in place. */
  method StringToUpper(s: array<char>)
    modifies s
    ensures s[..] == Upper(old(s[..]))
  {
    var i := 0;
    while i < s.Length
      invariant 0 <= i <= s.Length
      invariant forall k :: 0 <= k < i ==> s[k] == UpperChar(old(s[k]))
      invariant forall k :: i <= k < s.Length ==> s[k] == old(s[k])
    {
      if 97 <= s[i] as int <= 122 {
        s[i] := (s[i] as int - 32) as char;
      }
      i := i + 1;
    }
  }

  /** The argument string as string_to_upper leaves it (the source changes the argument in place). */
  method UpperCopy(s: string) returns (u: string)
    ensures u == Upper(s)
  {
    var letters := new char[|s|](k requires 0 <= k < |s| => s[k]);
    assert letters[..] == s;
    StringToUpper(letters);
    u := letters[..];
  }

  /**
   * Upper changes exactly the lower-case letters, each to its capital, keeps the
   * length, leaves no lower-case letter, and so changes nothing the second time.
   */
  lemma UpperSpec(s: string)
    ensures |Upper(s)| == |s|
    ensures forall k :: 0 <= k < |s| ==>
      (if 97 <= s[k] as int <= 122 then Upper(s)[k] as int == s[k] as int - 32 else Upper(s)[k] == s[k])
    ensures forall k :: 0 <= k < |s| ==> !(97 <= Upper(s)[k] as int <= 122)
    ensures Upper(Upper(s)) == Upper(s)
  {
    var u := Upper(s);
    forall k | 0 <= k < |s| ensures Upper(u)[k] == u[k] {
      assert !(97 <= u[k] as int <= 122);
    }
  }

  /** color_to_int: "b" or "B" is BLACK, "w" or "W" is WHITE, anything else -1. */
  function ColorToInt(color: string): (c: int)
    ensures c == BLACK || c == WHITE || c == -1
    ensures c == BLACK <==> color == "b" || color == "B"
    ensures c == WHITE <==> color == "w" || color == "W"
  {
    if color == "b" || color == "B" then BLACK
    else if color == "w" || color == "W" then WHITE
    else -1
  }

  // ---------------------------------------------------------------------------
  // Replies

  /** The reply of play for the engine's code. */
  function PlayReply(code: int): string
  {
    if code == 0 then "" else if code == -1 then "illegal move" else "wrong color"
  }

  /** The reply of genmove for the engine's result. */
  function GenMoveReply(move: int, w: int): string
    requires w >= 0
  {
    if move == PASS then "resign"
    else if move == -2 then "wrong color"
    else if move < 0 then "Illegal move: " + PointToString(-move, w)
    else PointToString(move, w)
  }

  /** The reply of undo for the engine's code. */
  function UndoReply(code: int): string
  {
    if code == -1 then "cannot undo: no move has been made" else ""
  }

  /** A point name for a board of at most 26 columns is unchanged by Upper. */
  lemma UpperPointString(p: int, h: int, w: int)
    requires 0 < w <= 26 && OnBoard(p, h, w)
    ensures Upper(PointToString(p, w)) == PointToString(p, w)
  {
    var s := PointToString(p, w);
    var row := Quot(p, Stride(w));
    var col := Rem(p, Stride(w));
    DivModOf(p / Stride(w), p % Stride(w), Stride(w));
    assert s == [((64 + col) % 256) as char] + IntToString(row);
    assert IntToString(row) == NatToString(row);
    forall k | 0 <= k < |s| ensures Upper(s)[k] == s[k] {
      if k > 0 {
        assert s[k] == NatToString(row)[k - 1];
        assert IsDigit(s[k]);
      }
    }
  }

  /**
   * The reply of genmove for a move it played, upper-cased and parsed back as the
   * play command does, is that point; a refused point is named the same way after
   * "Illegal move: ", and its negation is neither PASS nor the wrong-colour code.
   */
  lemma GenMoveReplyRoundTrip(p: int, h: int, w: int)
    requires 0 < w <= 26 && OnBoard(p, h, w) && p <= INT_MAX
    ensures StringToPoint(Upper(GenMoveReply(p, w)), w) == Some(p)
    ensures -p != PASS && -p != -2
    ensures GenMoveReply(-p, w) == "Illegal move: " + GenMoveReply(p, w)
  {
    UpperPointString(p, h, w);
    StringPointRoundTrip(p, h, w);
    PastFirstRow(p, h, w);
    assert GenMoveReply(p, w) == PointToString(p, w);
    assert GenMoveReply(-p, w) == "Illegal move: " + PointToString(p, w);
  }

  /** An on-board point lies past the first (border) row and column. */
  lemma PastFirstRow(p: int, h: int, w: int)
    requires w > 0 && OnBoard(p, h, w)
    ensures p >= Stride(w) + 1
  {
    var ns, row, col := Stride(w), p / Stride(w), p % Stride(w);
    assert p == ns * row + col;
    assert ns * row >= ns by {
      assert ns * row == ns + ns * (row - 1);
    }
  }

  /** The three play replies are distinct, and so are the two undo replies. */
  lemma RepliesDistinct()
    ensures PlayReply(0) != PlayReply(-1) && PlayReply(0) != PlayReply(-2) && PlayReply(-1) != PlayReply(-2)
    ensures UndoReply(0) != UndoReply(-1)
  {
  }

  // ---------------------------------------------------------------------------
  // The connection

  class GtpConnection {
    var engine: NoGo

    ghost predicate Valid()
      reads this, engine, engine.board, engine.search, engine.hs, engine.linePlays
    {
      engine.Valid()
    }

    constructor (e: NoGo)
      requires e.Valid()
      ensures Valid() && engine == e
    {
      engine := e;
    }

    /** The engine's board, turn and log are as they were. */
    ghost predicate Kept(cells: seq<int>, player: int, log: seq<int>)
      reads this, engine, engine.board, engine.search, engine.hs, engine.linePlays
      requires Valid()
    {
      engine.Kept(cells, player, log)
    }

    /**
     * play_cmd: "argument error!" unless there are two arguments; otherwise the
     * colour from the first, the point from the upper-cased second, and the reply
     * for the engine's play_move code. No reply when the point does not parse or,
     * for the player to move, lies off the cell array or is a legal move that the
     * full log has no slot for.
     */
    method PlayCmd(args: seq<string>) returns (reply: Option<string>)
      requires Valid()
      modifies engine.board, engine.linePlays
      ensures Valid()
      ensures |args| != 2 ==>
        reply == Some("argument error!") && Kept(old(engine.board.cells), old(engine.board.currentPlayer), old(engine.Log()))
      ensures |args| == 2 ==>
        var color := ColorToInt(args[0]);
        var point := StringToPoint(Upper(args[1]), engine.board.width);
        && (point.None? ==> reply.None?)
        && (point.Some? && color != old(engine.board.currentPlayer) ==> reply == Some("wrong color"))
        && (point.Some? && color == old(engine.board.currentPlayer) ==>
             (reply.None? <==> (!(0 <= point.value < engine.board.maxpoint) ||
               (old(engine.linePlays[0]) >= 100 && IsLegalMove(old(engine.board.cells), engine.board.ns, point.value, color)))))
        && (reply == Some("illegal move") <==>
             (point.Some? && reply.Some? && color == old(engine.board.currentPlayer)
              && !IsLegalMove(old(engine.board.cells), engine.board.ns, point.value, color)))
        && (reply == Some("") <==>
             (point.Some? && reply.Some? && color == old(engine.board.currentPlayer)
              && IsLegalMove(old(engine.board.cells), engine.board.ns, point.value, color)))
        && (reply == Some("") ==> engine.Played(old(engine.board.cells), old(engine.Log()), point.value, color))
      ensures reply != Some("") ==>
        Kept(old(engine.board.cells), old(engine.board.currentPlayer), old(engine.Log()))
    {
      if |args| != 2 {
        return Some("argument error!");
      }
      var upper := UpperCopy(args[1]);
      var color := ColorToInt(args[0]);
      var point := StringToPoint(upper, engine.board.width);
      if point.None? {
        return None;
      }
      reply := PlayPoint(color, point.value);
    }

    /** The rest of play_cmd once the point is parsed: the reply for play_move's code. */
    method PlayPoint(color: int, point: int) returns (reply: Option<string>)
      requires Valid()
      modifies engine.board, engine.linePlays
      ensures Valid()
      ensures color != old(engine.board.currentPlayer) ==> reply == Some("wrong color")
      ensures color == old(engine.board.currentPlayer) ==>
        (reply.None? <==> (!(0 <= point < engine.board.maxpoint) ||
          (old(engine.linePlays[0]) >= 100 && IsLegalMove(old(engine.board.cells), engine.board.ns, point, color))))
      ensures reply == Some("illegal move") <==>
        (reply.Some? && color == old(engine.board.currentPlayer)
         && !IsLegalMove(old(engine.board.cells), engine.board.ns, point, color))
      ensures reply == Some("") <==>
        (reply.Some? && color == old(engine.board.currentPlayer)
         && IsLegalMove(old(engine.board.cells), engine.board.ns, point, color))
      ensures reply == Some("") ==> engine.Played(old(engine.board.cells), old(engine.Log()), point, color)
      ensures reply != Some("") ==>
        Kept(old(engine.board.cells), old(engine.board.currentPlayer), old(engine.Log()))
    {
      if color == engine.board.currentPlayer {
        if !(0 <= point < engine.board.maxpoint) {
          return None;
        }
        if engine.linePlays[0] >= 100 {
          var legal := engine.board.IsLegal(point, color);
          if legal {
            return None;
          }
        }
      }
      var code := engine.PlayMove(color, point);
      reply := Some(PlayReply(code));
    }

    /**
     * genmove_cmd: the colour from the first argument, then the reply for the
     * engine's genmove result. No reply without an argument (the source reads
     * args[0] unchecked) or, for the player to move, when the log is full and a
     * legal move would be logged. `randomMove` is the move the random generator
     * would offer; it is PASS exactly when there is no legal move.
     */
    method GenMoveCmd(args: seq<string>, randomMove: int) returns (reply: Option<string>, move: int)
      requires Valid()
      requires engine.RandomOffer(randomMove)
      modifies engine.board, engine.linePlays
      ensures Valid()
      ensures reply.None? ==> Kept(old(engine.board.cells), old(engine.board.currentPlayer), old(engine.Log()))
      ensures |args| == 0 ==> reply.None?
      ensures |args| > 0 && ColorToInt(args[0]) != old(engine.board.currentPlayer) ==>
        reply == Some("wrong color") && Kept(old(engine.board.cells), old(engine.board.currentPlayer), old(engine.Log()))
      ensures |args| > 0 && ColorToInt(args[0]) == old(engine.board.currentPlayer) ==>
        (reply.None? <==> (old(engine.linePlays[0]) >= 100 &&
          LegalMoves(old(engine.board.cells), engine.board.ns, old(engine.board.currentPlayer)) != []))
      ensures reply.Some? && |args| > 0 && ColorToInt(args[0]) == old(engine.board.currentPlayer) ==>
        && reply == Some(GenMoveReply(move, engine.board.width))
        && engine.Outcome(old(engine.board.cells), old(engine.board.currentPlayer), old(engine.Log()), move, ColorToInt(args[0]))
    {
      move := 0;
      if |args| == 0 {
        return None, move;
      }
      var color := ColorToInt(args[0]);
      LegalMovesSpec(engine.board.cells, engine.board.ns, engine.board.currentPlayer);
      if color == engine.board.currentPlayer && engine.linePlays[0] >= 100 && randomMove != PASS {
        return None, move;
      }
      move := engine.GenMove(color, randomMove);
      reply := Some(GenMoveReply(move, engine.board.width));
    }

    /** undo_cmd: the reply for the engine's undo code. */
    method UndoCmd() returns (reply: string)
      requires Valid()
      modifies engine.board, engine.linePlays
      ensures Valid()
      ensures reply == "cannot undo: no move has been made" <==> old(engine.Log()) == []
      ensures reply == "cannot undo: no move has been made" ==>
        Kept(old(engine.board.cells), old(engine.board.currentPlayer), old(engine.Log()))
      ensures reply == "" ==> var log := old(engine.Log());
        && engine.board.cells == old(engine.board.cells)[log[|log| - 1] := EMPTY]
        && engine.board.currentPlayer == Opponent(old(engine.board.currentPlayer))
        && engine.Log() == log[..|log| - 1]
    {
      var code := engine.Undo();
      reply := UndoReply(code);
    }
  }
}
