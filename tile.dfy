// A numbered tile of the 2048 board (2048ai/tile.ts). The game moves a tile by
// updating its coordinates in place, and records on a freshly merged tile the pair
// of tiles it came from.

module Tiles {
  import opened Common
  import opened Strings

  datatype Position = Position(x: int, y: int)

  datatype SerializedTile = SerializedTile(position: Position, value: int)

  /** `value || 2`: a falsy value (zero) becomes 2. */
  function InitialValue(value: int): (v: int)
    ensures v != 0
    ensures value != 0 ==> v == value
    ensures value == 0 ==> v == 2
  {
    if value == 0 then 2 else value
  }

  class Tile {
    var x: int
    var y: int
    /** Assigned once, by the constructor. */
    const value: int
    var previousPosition: Option<Position>
    var mergedFrom: Option<(Tile, Tile)>

    constructor (position: Position, value: int)
      ensures x == position.x && y == position.y
      ensures this.value == InitialValue(value)
      ensures previousPosition == None && mergedFrom == None
    {
      x := position.x;
      y := position.y;
      this.value := InitialValue(value);
      previousPosition := None;
      mergedFrom := None;
    }

    function GetPosition(): (p: Position)
      reads this
      ensures p.x == x && p.y == y
    {
      Position(x, y)
    }

    method SavePosition()
      modifies this
      ensures previousPosition == Some(Position(x, y))
      ensures x == old(x) && y == old(y) && mergedFrom == old(mergedFrom)
    {
      previousPosition := Some(Position(x, y));
    }

    method UpdatePosition(position: Position)
      modifies this
      ensures x == position.x && y == position.y
      ensures previousPosition == old(previousPosition) && mergedFrom == old(mergedFrom)
    {
      x := position.x;
      y := position.y;
    }

    function Serialize(): (s: SerializedTile)
      reads this
      ensures s.position == GetPosition() && s.value == value
    {
      SerializedTile(Position(x, y), value)
    }

    /** The tile's identity as a string: "x,y,value". */
    function ToString(): (s: string)
      reads this
      ensures TileKeyFields(s) == Some((x, y, value))
    {
      TileKeyRoundTrip(x, y, value);
      TileKey(x, y, value)
    }
  }

  /** A tile rebuilt from its serialized form has the same position and value: the
    * constructor keeps a non-zero value, and tiles never hold zero. */
  method Rebuild(s: SerializedTile) returns (t: Tile)
    ensures fresh(t) && t.Serialize() == SerializedTile(s.position, InitialValue(s.value))
  {
    t := new Tile(s.position, s.value);
  }

  function TileKey(x: int, y: int, v: int): string {
    Join([IntToString(x), IntToString(y), IntToString(v)], ",")
  }

  /** Reads the three numbers back out of "x,y,value". */
  function TileKeyFields(s: string): Option<(int, int, int)> {
    var parts := Split(s, ',');
    if |parts| != 3 then None
    else match (ParseInt(parts[0]), ParseInt(parts[1]), ParseInt(parts[2]))
      case (Some(a), Some(b), Some(c)) => Some((a, b, c))
      case _ => None
  }

  lemma NoCommaInNumber(i: int)
    ensures ',' !in IntToString(i)
  {
  }

  /** The key of a tile determines its position and value. */
  lemma TileKeyRoundTrip(x: int, y: int, v: int)
    ensures TileKeyFields(TileKey(x, y, v)) == Some((x, y, v))
  {
    var parts := [IntToString(x), IntToString(y), IntToString(v)];
    NoCommaInNumber(x);
    NoCommaInNumber(y);
    NoCommaInNumber(v);
    SplitJoin(parts, ',');
    ParseIntOfString(x);
    ParseIntOfString(y);
    ParseIntOfString(v);
  }

  lemma TileKeyInjective(x1: int, y1: int, v1: int, x2: int, y2: int, v2: int)
    requires TileKey(x1, y1, v1) == TileKey(x2, y2, v2)
    ensures x1 == x2 && y1 == y2 && v1 == v2
  {
    TileKeyRoundTrip(x1, y1, v1);
    TileKeyRoundTrip(x2, y2, v2);
  }
}
