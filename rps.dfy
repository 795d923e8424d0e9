/** Rock, paper, scissors: the bot's move and the outcome rule. */
module RockPaperScissors {

  /** The three moves, in the order the bot draws from. */
  const Choices: seq<string> := ["rock", "paper", "scissors"]

  /** How a round ends, from the player's side. */
  datatype Outcome = Tie | PlayerWins | BotWins

  /** The bot's move for a draw `index` (`Math.floor(Math.random() * 3)`),
      the random draw being a parameter. */
  function BotChoice(index: int): (r: string)
    requires 0 <= index < |Choices|
    ensures r in Choices
  {
    Choices[index]
  }

  /** The outcome rule, in the order the command tests it: equal moves tie,
      three pairs are player wins, everything else is a bot win. The player's
      move is the pressed button's id. */
  function Play(player: string, bot: string): (r: Outcome)
    ensures r == Tie <==> player == bot
  {
    if player == bot then Tie
    else if (player == "rock" && bot == "scissors") ||
            (player == "paper" && bot == "rock") ||
            (player == "scissors" && bot == "paper") then PlayerWins
    else BotWins
  }

  /** The position of a move in `Choices`. */
  function MoveIndex(m: string): (i: int)
    requires m in Choices
    ensures 0 <= i < |Choices| && Choices[i] == m
  {
    if m == "rock" then 0 else if m == "paper" then 1 else 2
  }

  /** Each move beats the one before it in `Choices`, cyclically: the
      reference rule the command's pairs spell out. */
  lemma PlayIsCyclic(player: string, bot: string)
    requires player in Choices && bot in Choices
    ensures Play(player, bot) == PlayerWins <==> (MoveIndex(player) - MoveIndex(bot)) % 3 == 1
    ensures Play(player, bot) == BotWins <==> (MoveIndex(bot) - MoveIndex(player)) % 3 == 1
  {
  }

  /** Swapping the two moves swaps the winner and keeps a tie. */
  lemma SwapMoves(a: string, b: string)
    requires a in Choices && b in Choices
    ensures Play(a, b) == Tie <==> Play(b, a) == Tie
    ensures Play(a, b) == PlayerWins <==> Play(b, a) == BotWins
  {
  }

  /** Against every bot move, each player move wins once, loses once and ties once. */
  lemma EachMoveBalanced(player: string)
    requires player in Choices
    ensures |set i | 0 <= i < 3 && Play(player, Choices[i]) == PlayerWins| == 1
    ensures |set i | 0 <= i < 3 && Play(player, Choices[i]) == BotWins| == 1
  {
    var p := MoveIndex(player);
    var w := (p + 2) % 3;
    var l := (p + 1) % 3;
    assert (set i | 0 <= i < 3 && Play(player, Choices[i]) == PlayerWins) == {w};
    assert (set i | 0 <= i < 3 && Play(player, Choices[i]) == BotWins) == {l};
  }
}
