/**
  The on-screen controls: six keys, each a desktop icon that queues one
  game key when run.
 */
module Keys {

  /** The game keys the controls produce; their numeric codes live in the engine and are not modelled. */
  datatype DoomKey = UpArrow | LeftArrow | DownArrow | RightArrow | Fire | Use

  /** A control: icon name, the game key it sends, and its icon position below the tile grid. */
  datatype Key = Key(name: string, doomKey: DoomKey, col: nat, row: nat)

  /** The control table, in the order that gives each key its index. */
  const KEYS: seq<Key> := [
    Key("FORWARD", UpArrow, 1, 0),
    Key("LEFT", LeftArrow, 0, 1),
    Key("DOWN", DownArrow, 1, 1),
    Key("RIGHT", RightArrow, 2, 1),
    Key("FIRE", Fire, 3, 0),
    Key("USE", Use, 3, 1)
  ]

  const KEY_COUNT: nat := 6

  /** Index of the control named FIRE. */
  const FIRE: nat := 4

  /**
    The table is a one-to-one assignment: no two controls share a name, a
    game key or an icon position.
   */
  lemma KeysDistinct(i: nat, j: nat)
    requires i < j < KEY_COUNT
    ensures |KEYS| == KEY_COUNT
    ensures KEYS[i].name != KEYS[j].name
    ensures KEYS[i].doomKey != KEYS[j].doomKey
    ensures (KEYS[i].col, KEYS[i].row) != (KEYS[j].col, KEYS[j].row)
  {
  }
}
