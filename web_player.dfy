/**
 * The web client's Player (web-client/src/model/player.js): its turn action, the handlers that fire
 * when it has to shift or move, and the label shown for it.
 */
module WebPlayer {
  import opened Common

  /** The two handlers setTurnAction may call. */
  datatype Handler = OnHasToShift | OnHasToMove

  /** The handler calls setTurnAction makes when the turn action goes from `previous` to `next`. */
  function Notification(previous: string, next: string): (calls: seq<Handler>)
    ensures |calls| <= 1
    ensures calls == [OnHasToShift] <==> previous != next && next == "SHIFT"
    ensures calls == [OnHasToMove] <==> previous != next && next == "MOVE"
  {
    if previous != next then
      if next == "SHIFT" then [OnHasToShift]
      else if next == "MOVE" then [OnHasToMove]
      else []
    else []
  }

  /** The handler calls of a series of setTurnAction calls, starting from the turn action `initial`. */
  function Notifications(initial: string, actions: seq<string>): seq<Handler>
    decreases |actions|
  {
    if actions == [] then [] else Notification(initial, actions[0]) + Notifications(actions[0], actions[1..])
  }

  /** Setting a turn action again fires nothing, and so a repeated value fires only once. */
  lemma RepeatFiresOnce(previous: string, next: string)
    ensures Notifications(previous, [next, next]) == Notification(previous, next)
  {
    assert [next, next][1..] == [next];
    assert [next][1..] == [];
    assert Notifications(next, [next]) == Notification(next, next) + Notifications(next, []);
  }

  /** `pattern` occurs in `s` at position `i`. */
  predicate OccursAt(s: string, pattern: string, i: nat) {
    i + |pattern| <= |s| && s[i..i + |pattern|] == pattern
  }

  /** The position of the first occurrence of `pattern` in `s` at or after `from`. */
  function IndexOf(s: string, pattern: string, from: nat): (r: Option<nat>)
    ensures r.Some? ==> from <= r.value && OccursAt(s, pattern, r.value)
    ensures r.Some? ==> forall i: nat :: from <= i < r.value ==> !OccursAt(s, pattern, i)
    ensures r.None? ==> forall i: nat :: from <= i ==> !OccursAt(s, pattern, i)
    decreases |s| - from
  {
    if from + |pattern| > |s| then None
    else if s[from..from + |pattern|] == pattern then Some(from)
    else IndexOf(s, pattern, from + 1)
  }

  /** String.prototype.replace with a string pattern: only the first occurrence is replaced. */
  function ReplaceFirst(s: string, pattern: string, replacement: string): (r: string)
    ensures (forall i: nat :: !OccursAt(s, pattern, i)) ==> r == s
    ensures forall i: nat :: OccursAt(s, pattern, i) && (forall j: nat :: j < i ==> !OccursAt(s, pattern, j)) ==>
              r == s[..i] + replacement + s[i + |pattern|..]
  {
    match IndexOf(s, pattern, 0)
    case None => s
    case Some(i) => s[..i] + replacement + s[i + |pattern|..]
  }

  /** Replacing a prefix puts the replacement in its place. */
  lemma ReplacePrefix(s: string, pattern: string, replacement: string)
    requires StartsWith(s, pattern)
    ensures ReplaceFirst(s, pattern, replacement) == replacement + s[|pattern|..]
  {
    assert s[0..|pattern|] == s[..|pattern|];
    assert OccursAt(s, pattern, 0);
    assert s[..0] == [];
  }

  predicate StartsWith(s: string, prefix: string) {
    |prefix| <= |s| && s[..|prefix|] == prefix
  }

  /** None of the four known methods starts with "dynamic-". */
  lemma KnownNotDynamic()
    ensures !StartsWith("exhaustive-search", "dynamic-") && !StartsWith("alpha-beta", "dynamic-")
    ensures !StartsWith("minimax", "dynamic-") && !StartsWith("random", "dynamic-")
  {
    assert "exhaustive-search"[..8][0] == 'e';
    assert "alpha-beta"[..8][0] == 'a';
    assert "random"[0] == 'r' && |"random"| < 8;
    assert "minimax"[0] == 'm' && |"minimax"| < 8;
  }

  /**
   * Player.computationMethodLabel: four known methods get fixed labels, a "dynamic-" method is
   * shown as the library it names, and any other method is shown as it is.
   */
  function ComputationMethodLabel(computationMethod: string): (shown: string)
    ensures computationMethod == "exhaustive-search" ==> shown == "Exhaustive Search"
    ensures computationMethod == "alpha-beta" ==> shown == "Alpha-Beta"
    ensures computationMethod == "minimax" ==> shown == "Minimax"
    ensures computationMethod == "random" ==> shown == "Random actions"
    ensures StartsWith(computationMethod, "dynamic-") ==> shown == "Library: " + computationMethod[|"dynamic-"|..]
    ensures (computationMethod !in {"exhaustive-search", "alpha-beta", "minimax", "random"} &&
             !StartsWith(computationMethod, "dynamic-")) ==> shown == computationMethod
  {
    KnownNotDynamic();
    if computationMethod == "exhaustive-search" then "Exhaustive Search"
    else if computationMethod == "alpha-beta" then "Alpha-Beta"
    else if computationMethod == "minimax" then "Minimax"
    else if computationMethod == "random" then "Random actions"
    else if StartsWith(computationMethod, "dynamic-") then
      ReplacePrefix(computationMethod, "dynamic-", "Library: ");
      ReplaceFirst(computationMethod, "dynamic-", "Library: ")
    else computationMethod
  }

  /** Every library name X is shown as "Library: X", so different libraries get different labels. */
  lemma DynamicLabel(name: string)
    ensures ComputationMethodLabel("dynamic-" + name) == "Library: " + name
  {
    var m := "dynamic-" + name;
    assert m[..|"dynamic-"|] == "dynamic-";
    assert m[|"dynamic-"|..] == name;
    assert m != "exhaustive-search" && m != "alpha-beta" && m != "minimax" && m != "random" by {
      assert m[0] == 'd';
      assert m[1] == 'y';
    }
  }

  class Player {
    var id: int
    var mazeCard: Option<int>
    var colorIndex: int
    var isComputer: bool
    var computationMethod: string
    var isUser: bool
    var turnAction: string
    var score: int
    /** The handler calls made so far. */
    var notified: seq<Handler>

    /** A new player has turn action "NONE", is neither user nor computer, and has no card and no score. */
    constructor (id: int)
      ensures this.id == id && mazeCard == None && colorIndex == 0 && !isComputer && computationMethod == ""
      ensures !isUser && turnAction == "NONE" && score == 0 && notified == []
      ensures !HasToMove() && !HasToShift()
    {
      this.id := id;
      mazeCard := None;
      colorIndex := 0;
      isComputer := false;
      computationMethod := "";
      isUser := false;
      turnAction := "NONE";
      score := 0;
      notified := [];
    }

    /** Player.withId */
    static method WithId(id: int) returns (player: Player)
      ensures fresh(player) && player.id == id && player.turnAction == "NONE" && player.notified == []
    {
      player := new Player(id);
    }

    /** The player's turn action asks for a move. */
    predicate HasToMove()
      reads this
      ensures HasToMove() ==> turnAction != "NONE" && turnAction != "SHIFT"
    {
      turnAction == "MOVE"
    }

    /** The player's turn action asks for a shift. */
    predicate HasToShift()
      reads this
      ensures HasToShift() ==> turnAction != "NONE" && turnAction != "MOVE"
    {
      turnAction == "SHIFT"
    }

    /** A player never has to move and shift at once. */
    lemma MoveAndShiftExclusive()
      ensures !(HasToMove() && HasToShift())
    {
    }

    function GetTurnAction(): (action: string)
      reads this
      ensures action == "MOVE" <==> HasToMove()
      ensures action == "SHIFT" <==> HasToShift()
    {
      turnAction
    }

    /** setTurnAction: the value is always stored, and a handler fires only on a change into "SHIFT" or "MOVE". */
    method SetTurnAction(newTurnAction: string)
      modifies this
      ensures turnAction == newTurnAction
      ensures notified == old(notified) + Notification(old(turnAction), newTurnAction)
      ensures id == old(id) && mazeCard == old(mazeCard) && colorIndex == old(colorIndex) && isComputer == old(isComputer)
      ensures computationMethod == old(computationMethod) && isUser == old(isUser) && score == old(score)
    {
      var previousTurnAction := turnAction;
      turnAction := newTurnAction;
      if previousTurnAction != newTurnAction {
        if newTurnAction == "SHIFT" {
          notified := notified + [OnHasToShift];
        } else if newTurnAction == "MOVE" {
          notified := notified + [OnHasToMove];
        }
      }
    }

    /** getLabel: "You" for the user, the method's label for a computer player, and "" otherwise. */
    function GetLabel(): (shown: string)
      reads this
      ensures isUser ==> shown == "You"
      ensures !isUser && isComputer ==> shown == ComputationMethodLabel(computationMethod)
      ensures shown == "" <==> !isUser && (!isComputer || computationMethod == "")
    {
      if isUser then "You"
      else if isComputer then ComputationMethodLabel(computationMethod)
      else ""
    }
  }
}
