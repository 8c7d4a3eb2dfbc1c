/**
 * Riddles placed on maze cells. A riddle is a plain, an easy or a hard
 * riddle; the class fixes the vision reward for solving it and, together
 * with the reward type, the colour of its marker.
 */
module Riddles {

  datatype RewardType = VisionReward | InvisibilityReward | KillPowerReward | HealthReward

  /** The three riddle classes: the base riddle and its easy and hard variants. */
  datatype Kind = Plain | Easy | Hard

  datatype Color = Color(r: int, g: int, b: int)

  predicate IsRgb(c: Color)
  {
    0 <= c.r < 256 && 0 <= c.g < 256 && 0 <= c.b < 256
  }

  /** How much solving a riddle of class `kind` widens the player's vision. */
  function Reward(kind: Kind): (r: real)
    ensures 1.5 <= r <= 3.0
  {
    match kind
    case Plain => 2.0
    case Easy => 1.5
    case Hard => 3.0
  }

  /** Easy riddles pay least and hard riddles most. */
  lemma RewardOrdered()
    ensures Reward(Easy) < Reward(Plain) < Reward(Hard)
  {
  }

  /** The marker colour of an unsolved riddle of class `kind` with reward type `rt`. */
  function MarkerColor(kind: Kind, rt: RewardType): (c: Color)
    ensures IsRgb(c)
  {
    match kind
    case Plain => Color(255, 200, 50)
    case Easy =>
      if rt == InvisibilityReward then Color(100, 200, 255)
      else if rt == KillPowerReward then Color(255, 255, 0)
      else if rt == HealthReward then Color(100, 255, 180)
      else Color(100, 255, 100)
    case Hard =>
      if rt == InvisibilityReward then Color(150, 100, 255)
      else if rt == KillPowerReward then Color(255, 150, 0)
      else if rt == HealthReward then Color(200, 255, 180)
      else Color(255, 100, 100)
  }

  /**
   * A marker tells the riddle apart: the plain marker ignores the reward
   * type and is shared by no easy or hard riddle, while easy and hard
   * markers differ for every (class, reward type) pair.
   */
  lemma MarkerColorsTellApart(k1: Kind, t1: RewardType, k2: Kind, t2: RewardType)
    ensures k1 == Plain && k2 == Plain ==> MarkerColor(k1, t1) == MarkerColor(k2, t2)
    ensures k1 == Plain && k2 != Plain ==> MarkerColor(k1, t1) != MarkerColor(k2, t2)
    ensures k1 != Plain && k2 != Plain ==>
              (MarkerColor(k1, t1) == MarkerColor(k2, t2) <==> k1 == k2 && t1 == t2)
  {
  }

  /** The earlier single-file revision's marker colours, which depend on the class alone. */
  function EarlyMarkerColor(kind: Kind): (c: Color)
    ensures IsRgb(c)
  {
    match kind
    case Plain => Color(255, 200, 50)
    case Easy => Color(100, 255, 100)
    case Hard => Color(255, 100, 100)
  }

  /** The earlier revision colours every riddle the way the later one colours a vision riddle. */
  lemma EarlyColorsAreVisionColors(kind: Kind)
    ensures EarlyMarkerColor(kind) == MarkerColor(kind, VisionReward)
  {
  }

  class Riddle {
    const question: string
    const answer: string
    var solved: bool
    const x: int
    const y: int
    const rewardType: RewardType
    const kind: Kind

    /** An unsolved riddle of class `kind` with the given text, cell and reward type. */
    constructor (q: string, a: string, posX: int, posY: int, rt: RewardType, kind: Kind)
      ensures question == q && answer == a && x == posX && y == posY
      ensures rewardType == rt && this.kind == kind
      ensures !solved
    {
      question, answer, x, y := q, a, posX, posY;
      rewardType, this.kind := rt, kind;
      solved := false;
    }

    function GetQuestion(): string
    {
      question
    }

    function GetAnswer(): string
    {
      answer
    }

    function IsSolved(): bool
      reads this
    {
      solved
    }

    method SetSolved(s: bool)
      modifies this
      ensures IsSolved() == s
    {
      solved := s;
    }

    function GetRewardType(): RewardType
    {
      rewardType
    }

    /** The vision reward, fixed by the riddle's class. */
    function GetReward(): (r: real)
      ensures r == Reward(kind) && 1.5 <= r <= 3.0
    {
      Reward(kind)
    }

    /** The marker colour, fixed by the riddle's class and reward type. */
    function GetMarkerColor(): (c: Color)
      ensures c == MarkerColor(kind, rewardType) && IsRgb(c)
    {
      MarkerColor(kind, rewardType)
    }
  }
}
