/**
 * The scoring and level rules of the game loop: the player eats the food
 * pellet and the fruit on its cell, and once a level holds neither, the
 * game pauses for LEVEL_CLEARED_DURATION frames and then either moves to the
 * next level (when the score has reached the threshold), declares the game
 * won (on the last level), or replays the level.
 */
module Progression {
  import opened Grid
  import opened Frontier
  import opened Actors

  const MaxLevel: int := 4
  /** Frames the "Level cleared" pause lasts: two seconds at 60 frames per second. */
  const LevelClearedDuration: int := 120
  /** The score needed to leave level 1 in a new game. */
  const FirstThreshold: int := 100

  datatype Status = Playing | Win | GameOver

  /** The kinds of fruit the level set-up places. */
  const FruitKinds: seq<string> := ["cherry", "strawberry", "orange"]

  datatype Fruit = Fruit(x: int, y: int, kind: string)
  {
    /** The points the Fruit constructor assigns to the fruit's kind. */
    function Points(): (p: nat)
      ensures p > 0 <==> kind in FruitKinds
      ensures p % 10 == 0 && p <= 30
    {
      if kind == "cherry" then 10
      else if kind == "strawberry" then 20
      else if kind == "orange" then 30
      else 0
    }

    predicate At(pos: Cell) {
      x == pos.x && y == pos.y
    }
  }

  /** The search the ghost uses on a level: bfs up to level 2, astar above. */
  function GhostAlgorithm(level: int): Algorithm
  {
    if level <= 2 then UseBfs else UseAStar
  }

  /** findIndex over the food list: the first position holding pos, or -1. */
  function FoodIndex(food: seq<Cell>, pos: Cell): (i: int)
    ensures -1 <= i < |food|
    ensures i == -1 <==> pos !in food
    ensures i >= 0 ==> food[i] == pos && pos !in food[..i]
  {
    if food == [] then -1
    else if food[0] == pos then 0
    else
      var j := FoodIndex(food[1..], pos);
      if j == -1 then -1
      else
        assert food[..j + 1] == [food[0]] + food[1..][..j];
        j + 1
  }

  /** findIndex over the fruit list: the first fruit standing on pos, or -1. */
  function FruitIndex(fruits: seq<Fruit>, pos: Cell): (i: int)
    ensures -1 <= i < |fruits|
    ensures i == -1 <==> forall k :: 0 <= k < |fruits| ==> !fruits[k].At(pos)
    ensures i >= 0 ==> fruits[i].At(pos) && forall k :: 0 <= k < i ==> !fruits[k].At(pos)
  {
    if fruits == [] then -1
    else if fruits[0].At(pos) then 0
    else
      var j := FruitIndex(fruits[1..], pos);
      if j == -1 then -1 else j + 1
  }

  /**
   * The points still on the board in fruit: a multiple of 10, and at most
   * 30 (an orange) for each fruit.
   */
  function TotalPoints(fruits: seq<Fruit>): (t: nat)
    ensures t % 10 == 0 && t <= 30 * |fruits|
  {
    if fruits == [] then 0 else fruits[0].Points() + TotalPoints(fruits[1..])
  }

  /** Splicing one fruit out takes exactly its points off the total. */
  lemma {:induction false} TotalPointsRemove(fruits: seq<Fruit>, k: nat)
    requires k < |fruits|
    ensures TotalPoints(RemoveAt(fruits, k)) + fruits[k].Points() == TotalPoints(fruits)
  {
    if k > 0 {
      TotalPointsRemove(fruits[1..], k - 1);
      assert RemoveAt(fruits, k) == [fruits[0]] + RemoveAt(fruits[1..], k - 1);
    } else {
      assert RemoveAt(fruits, k) == fruits[1..];
    }
  }

  /** Splicing an element out removes one copy of it and nothing else. */
  lemma RemoveAtMultiset<T>(s: seq<T>, k: nat)
    requires k < |s|
    ensures multiset(RemoveAt(s, k)) == multiset(s) - multiset{s[k]}
  {
    assert s == s[..k] + [s[k]] + s[k + 1..];
  }

  /** Eating at pos takes one pellet off pos when there is one there, and nothing else. */
  lemma FoodEaten(food: seq<Cell>, pos: Cell)
    ensures var i := FoodIndex(food, pos);
            multiset(if i == -1 then food else RemoveAt(food, i)) == multiset(food) - multiset{pos}
  {
    var i := FoodIndex(food, pos);
    if i != -1 {
      RemoveAtMultiset(food, i);
    } else {
      assert multiset(food)[pos] == 0;
    }
  }

  /** The part of the game object the scoring and level rules read and write. */
  datatype Standing = Standing(
    score: int,
    level: int,
    threshold: int,
    food: seq<Cell>,
    fruits: seq<Fruit>,
    cleared: bool,
    timer: int,
    status: Status,
    algorithm: Algorithm)

  /** What is left to earn on the board plus what has been earned. */
  function Worth(st: Standing): int {
    st.score + |st.food| + TotalPoints(st.fruits)
  }

  /** The food rule: the first pellet on pos, if any, is eaten for 1 point. */
  function EatFood(st: Standing, pos: Cell): (n: Standing)
    ensures Worth(n) == Worth(st)
    ensures multiset(n.food) == multiset(st.food) - multiset{pos}
    ensures n == st.(score := n.score, food := n.food)
    ensures var i := FoodIndex(st.food, pos);
            (i == -1 ==> n == st) &&
            (i != -1 ==> n.food == RemoveAt(st.food, i) && n.score == st.score + 1)
  {
    var i := FoodIndex(st.food, pos);
    FoodEaten(st.food, pos);
    if i != -1 then st.(food := RemoveAt(st.food, i), score := st.score + 1) else st
  }

  /** The fruit rule: the first fruit on pos, if any, is eaten for its points. */
  function EatFruit(st: Standing, pos: Cell): (n: Standing)
    ensures Worth(n) == Worth(st)
    ensures |n.fruits| == |st.fruits| - (if FruitIndex(st.fruits, pos) == -1 then 0 else 1)
    ensures n == st.(score := n.score, fruits := n.fruits)
    ensures var i := FruitIndex(st.fruits, pos);
            (i == -1 ==> n == st) &&
            (i != -1 ==> n.fruits == RemoveAt(st.fruits, i) && n.score == st.score + st.fruits[i].Points())
  {
    var i := FruitIndex(st.fruits, pos);
    if i != -1 then
      TotalPointsRemove(st.fruits, i);
      st.(score := st.score + st.fruits[i].Points(), fruits := RemoveAt(st.fruits, i))
    else
      st
  }

  /**
   * The eating rules of one frame, with the player on pos: food first, then
   * fruit.  Eating only moves points from the board to the score, removes
   * one pellet exactly when pos held one, and touches nothing else.
   */
  function AfterEating(st: Standing, pos: Cell): (n: Standing)
    ensures Worth(n) == Worth(st)
    ensures n.score >= st.score
    ensures multiset(n.food) == multiset(st.food) - multiset{pos}
    ensures |n.fruits| == |st.fruits| - (if FruitIndex(st.fruits, pos) == -1 then 0 else 1)
    ensures n == st.(score := n.score, food := n.food, fruits := n.fruits)
    ensures var i, j := FoodIndex(st.food, pos), FruitIndex(st.fruits, pos);
            n.food == (if i == -1 then st.food else RemoveAt(st.food, i)) &&
            n.fruits == (if j == -1 then st.fruits else RemoveAt(st.fruits, j)) &&
            n.score == st.score + (if i == -1 then 0 else 1) + (if j == -1 then 0 else st.fruits[j].Points())
  {
    EatFruit(EatFood(st, pos), pos)
  }

  /** initializeLevelContent, as far as this state goes: fresh food and fruit, no pause. */
  function FreshLevel(st: Standing, freshFood: seq<Cell>, freshFruits: seq<Fruit>): Standing {
    st.(food := freshFood, fruits := freshFruits, cleared := false, timer := 0)
  }

  /**
   * checkProgression, given the food and fruit a re-initialised level would
   * hold.  It never changes the score; it raises the level by at most one,
   * and only below MaxLevel with the score at the threshold; the threshold
   * rises by 100 times the new level, so threshold - 50 * level * (level + 1)
   * never changes; the only status it sets is Win, on the last level with
   * the score at the threshold; and the ghost's search keeps matching the
   * level.
   *
   * Call by call: a board still holding food or fruit outside a pause is
   * left alone; an emptied board starts the pause; a pause counts down;
   * and the call that ends the pause either goes up a level on fresh
   * content, or wins on the last level, or replays the level on fresh
   * content when the score falls short.
   */
  function NextProgress(st: Standing, freshFood: seq<Cell>, freshFruits: seq<Fruit>): (n: Standing)
    ensures n.score == st.score
    ensures n.level == st.level || (n.level == st.level + 1 && st.level < MaxLevel && st.score >= st.threshold)
    ensures n.threshold - 50 * n.level * (n.level + 1) == st.threshold - 50 * st.level * (st.level + 1)
    ensures n.status != st.status ==> n.status == Win && st.level == MaxLevel && st.score >= st.threshold
    ensures n.algorithm == st.algorithm || n.algorithm == GhostAlgorithm(n.level)
    ensures st.algorithm == GhostAlgorithm(st.level) ==> n.algorithm == GhostAlgorithm(n.level)
    ensures !st.cleared && (st.food != [] || st.fruits != []) ==> n == st
    ensures !st.cleared && st.food == [] && st.fruits == [] ==>
              n == st.(cleared := true, timer := LevelClearedDuration - 1)
    ensures st.cleared && st.timer > 1 ==> n == st.(timer := st.timer - 1)
    ensures st.cleared && st.timer <= 1 && st.level < MaxLevel && st.score >= st.threshold ==>
              n.level == st.level + 1 && n.threshold == st.threshold + 100 * n.level &&
              n.food == freshFood && n.fruits == freshFruits && !n.cleared &&
              n.status == st.status && n.algorithm == GhostAlgorithm(n.level)
    ensures st.cleared && st.timer <= 1 && st.level == MaxLevel && st.score >= st.threshold ==>
              n.status == Win && n.level == st.level && n.threshold == st.threshold &&
              n.food == st.food && n.fruits == st.fruits && !n.cleared
    ensures st.cleared && st.timer <= 1 && (st.level > MaxLevel || st.score < st.threshold) ==>
              n.level == st.level && n.threshold == st.threshold &&
              n.food == freshFood && n.fruits == freshFruits && !n.cleared &&
              n.status == st.status && n.algorithm == st.algorithm
  {
    var st1 := if st.food == [] && st.fruits == [] && !st.cleared
      then st.(cleared := true, timer := LevelClearedDuration)
      else st;
    if !st1.cleared then st1
    else
      var st2 := st1.(timer := st1.timer - 1);
      if st2.timer > 0 then st2
      else if st2.level < MaxLevel && st2.score >= st2.threshold then
        var l := st2.level + 1;
        assert 50 * l * (l + 1) == 50 * st2.level * (st2.level + 1) + 100 * l;
        FreshLevel(st2.(level := l, threshold := st2.threshold + 100 * l, algorithm := GhostAlgorithm(l)), freshFood, freshFruits)
      else if st2.level == MaxLevel && st2.score >= st2.threshold then
        st2.(status := Win, cleared := false)
      else
        FreshLevel(st2, freshFood, freshFruits)
  }

  /** n successive checkProgression calls, each re-initialising with the same content. */
  function Repeat(st: Standing, n: nat, freshFood: seq<Cell>, freshFruits: seq<Fruit>): Standing
    decreases n
  {
    if n == 0 then st else Repeat(NextProgress(st, freshFood, freshFruits), n - 1, freshFood, freshFruits)
  }

  lemma {:induction false} RepeatSnoc(st: Standing, n: nat, freshFood: seq<Cell>, freshFruits: seq<Fruit>)
    decreases n
    ensures Repeat(st, n + 1, freshFood, freshFruits) ==
            NextProgress(Repeat(st, n, freshFood, freshFruits), freshFood, freshFruits)
  {
    if n > 0 {
      RepeatSnoc(NextProgress(st, freshFood, freshFruits), n - 1, freshFood, freshFruits);
    }
  }

  /** During the pause each call only counts the timer down. */
  lemma {:induction false} Countdown(st: Standing, k: nat, freshFood: seq<Cell>, freshFruits: seq<Fruit>)
    requires st.cleared && k < st.timer
    decreases k
    ensures Repeat(st, k, freshFood, freshFruits) == st.(timer := st.timer - k)
  {
    if k > 0 {
      var next := NextProgress(st, freshFood, freshFruits);
      assert next == st.(timer := st.timer - 1);
      Countdown(next, k - 1, freshFood, freshFruits);
    }
  }

  /**
   * Clearing a level starts a pause of LevelClearedDuration calls: the call
   * that finds the board empty and the next LevelClearedDuration - 2 calls
   * leave everything but the timer alone, and the last call of the pause
   * ends it.
   */
  lemma LevelPause(st: Standing, freshFood: seq<Cell>, freshFruits: seq<Fruit>)
    requires st.food == [] && st.fruits == [] && !st.cleared
    ensures forall k :: 1 <= k < LevelClearedDuration ==>
              Repeat(st, k, freshFood, freshFruits) == st.(cleared := true, timer := LevelClearedDuration - k)
    ensures !Repeat(st, LevelClearedDuration, freshFood, freshFruits).cleared
  {
    var paused := st.(cleared := true, timer := LevelClearedDuration - 1);
    assert NextProgress(st, freshFood, freshFruits) == paused;
    forall k | 1 <= k < LevelClearedDuration
      ensures Repeat(st, k, freshFood, freshFruits) == st.(cleared := true, timer := LevelClearedDuration - k)
    {
      Countdown(paused, k - 1, freshFood, freshFruits);
    }
    RepeatSnoc(st, LevelClearedDuration - 1, freshFood, freshFruits);
  }

  /** The game object's scoring and level state. */
  class Game {
    var score: int
    var level: int
    var levelUpScoreThreshold: int
    var food: seq<Cell>
    var fruits: seq<Fruit>
    var levelCleared: bool
    var levelClearedTimer: int
    var gameStatus: Status
    /** The ghost's search, as updateGhostAI records it. */
    var algorithm: Algorithm

    function State(): Standing
      reads this
    {
      Standing(score, level, levelUpScoreThreshold, food, fruits,
               levelCleared, levelClearedTimer, gameStatus, algorithm)
    }

    /**
     * A new game on the selected level: no score, threshold 100, playing,
     * with the level's content and the ghost's search set up.
     */
    constructor(selectedLevel: int, freshFood: seq<Cell>, freshFruits: seq<Fruit>)
      ensures State() == Standing(0, selectedLevel, FirstThreshold, freshFood, freshFruits,
                                  false, 0, Playing, GhostAlgorithm(selectedLevel))
    {
      score := 0;
      level := selectedLevel;
      levelUpScoreThreshold := FirstThreshold;
      food := [];
      fruits := [];
      gameStatus := Playing;
      levelCleared := false;
      levelClearedTimer := 0;
      algorithm := UseAStar;
      new;
      InitializeLevelContent(freshFood, freshFruits);
      UpdateGhostAI();
    }

    /** updateGhostAI: bfs up to level 2, astar above. */
    method UpdateGhostAI()
      modifies this
      ensures State() == old(State()).(algorithm := GhostAlgorithm(old(level)))
    {
      if level <= 2 {
        algorithm := UseBfs;
      } else {
        algorithm := UseAStar;
      }
    }

    /** initializeLevelContent, given the food and fruit it lays out. */
    method InitializeLevelContent(freshFood: seq<Cell>, freshFruits: seq<Fruit>)
      modifies this
      ensures State() == FreshLevel(old(State()), freshFood, freshFruits)
    {
      food := freshFood;
      fruits := freshFruits;
      levelCleared := false;
      levelClearedTimer := 0;
    }

    /**
     * resetGame: a hard reset starts over at level 1 with no score and
     * threshold 100; either way play resumes on fresh content.
     */
    method ResetGame(hardReset: bool, freshFood: seq<Cell>, freshFruits: seq<Fruit>)
      modifies this
      ensures hardReset ==> score == 0 && level == 1 && levelUpScoreThreshold == FirstThreshold
      ensures !hardReset ==> score == old(score) && level == old(level) && levelUpScoreThreshold == old(levelUpScoreThreshold)
      ensures food == freshFood && fruits == freshFruits && !levelCleared && levelClearedTimer == 0
      ensures gameStatus == Playing && algorithm == GhostAlgorithm(level)
    {
      if hardReset {
        score := 0;
        level := 1;
        levelUpScoreThreshold := FirstThreshold;
      }
      gameStatus := Playing;
      InitializeLevelContent(freshFood, freshFruits);
      UpdateGhostAI();
    }

    /** The eating part of update, with the player on pos. */
    method Eat(pos: Cell)
      modifies this
      ensures State() == AfterEating(old(State()), pos)
    {
      var foodIndex := FoodIndex(food, pos);
      if foodIndex != -1 {
        food := RemoveAt(food, foodIndex);
        score := score + 1;
      }
      assert State() == EatFood(old(State()), pos);
      var fruitIndex := FruitIndex(fruits, pos);
      if fruitIndex != -1 {
        score := score + fruits[fruitIndex].Points();
        fruits := RemoveAt(fruits, fruitIndex);
      }
    }

    /** The collision rule of update: the game is lost when the ghost reaches the player's cell. */
    method CheckCollision(playerPos: Cell, ghostPos: Cell)
      modifies this
      ensures State() == old(State()).(status := if playerPos == ghostPos then GameOver else old(gameStatus))
    {
      if playerPos.x == ghostPos.x && playerPos.y == ghostPos.y {
        gameStatus := GameOver;
      }
    }

    /** checkProgression, given the content a re-initialised level would hold. */
    method CheckProgression(freshFood: seq<Cell>, freshFruits: seq<Fruit>)
      modifies this
      ensures State() == NextProgress(old(State()), freshFood, freshFruits)
    {
      if food == [] && fruits == [] && !levelCleared {
        levelCleared := true;
        levelClearedTimer := LevelClearedDuration;
      }
      if levelCleared {
        levelClearedTimer := levelClearedTimer - 1;
        if levelClearedTimer <= 0 {
          if level < MaxLevel && score >= levelUpScoreThreshold {
            level := level + 1;
            levelUpScoreThreshold := levelUpScoreThreshold + 100 * level;
            UpdateGhostAI();
            InitializeLevelContent(freshFood, freshFruits);
          } else if level == MaxLevel && score >= levelUpScoreThreshold {
            gameStatus := Win;
          } else {
            InitializeLevelContent(freshFood, freshFruits);
          }
          levelCleared := false;
        }
      }
    }
  }

  /**
   * In a game that started (or was hard-reset) at level 1, the threshold for
   * leaving level L is 50 * L * (L + 1): 100, 300, 600, 1000.
   */
  lemma {:induction false} ThresholdFromStart(st: Standing, n: nat, freshFood: seq<Cell>, freshFruits: seq<Fruit>)
    requires st.level == 1 && st.threshold == FirstThreshold
    ensures var r := Repeat(st, n, freshFood, freshFruits);
            1 <= r.level <= MaxLevel && r.threshold == 50 * r.level * (r.level + 1)
  {
    if n > 0 {
      ThresholdFromStart(st, n - 1, freshFood, freshFruits);
      RepeatSnoc(st, n - 1, freshFood, freshFruits);
    }
  }
}
