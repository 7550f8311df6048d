/** The common part of every solver (solver/base.py): a snake and the board it lives on. */
module SolverBase {
  import opened Directions
  import opened Board
  import opened Snakes

  /** What `next_direc` returns: a direction, or the base class's NotImplemented marker. */
  datatype Answer = Direction(direc: Direc) | NotImplemented

  class BaseSolver {
    var snake: Snake
    var gameMap: Map

    /** The stored board is the stored snake's board. */
    ghost predicate Valid()
      reads this, snake, snake.gameMap
    {
      gameMap == snake.gameMap && snake.Valid()
    }

    /** `BaseSolver(snake)`: remembers the snake and its board. */
    constructor (snake: Snake)
      requires snake.Valid()
      ensures Valid() && this.snake == snake && gameMap == snake.gameMap
    {
      this.snake := snake;
      gameMap := snake.gameMap;
    }

    /** The `snake` setter: the board follows the new snake. */
    method SetSnake(val: Snake)
      requires val.Valid()
      modifies this
      ensures Valid() && snake == val && gameMap == val.gameMap
    {
      snake := val;
      gameMap := val.gameMap;
    }

    /** `next_direc` of the base class. */
    method NextDirec() returns (r: Answer)
      ensures r == NotImplemented
    {
      r := NotImplemented;
    }
  }
}
