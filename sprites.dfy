/**
 * The three kinds of on-screen entity: enemies, missiles and the player.
 * Each is an object whose position and flags change in place; a JavaFX
 * shape's layout coordinates become the fields x and y, and its size a
 * constant of the kind.
 */
module Sprites {
  import opened Geometry
  import opened Fleet
  import opened Motion

  /** An entity of any kind (the Sprite interface), tagged by its class. */
  datatype Sprite = PlayerSprite(player: Player) | EnemySprite(enemy: Enemy) | MissileSprite(missile: Missile)
  {
    function Object(): object {
      match this
      case PlayerSprite(p) => p
      case EnemySprite(e) => e
      case MissileSprite(m) => m
    }

    function Bounds(): Box
      reads Object()
    {
      match this
      case PlayerSprite(p) => p.Bounds()
      case EnemySprite(e) => e.Bounds()
      case MissileSprite(m) => m.Bounds()
    }
  }

  /** Clamps a horizontal player position to the screen. */
  function Clamp(v: real): (r: real)
    ensures 0.0 <= r <= ScreenWidth - PlayerWidth
    ensures 0.0 <= v <= ScreenWidth - PlayerWidth ==> r == v
    ensures v < 0.0 ==> r == 0.0
    ensures v > ScreenWidth - PlayerWidth ==> r == ScreenWidth - PlayerWidth
  {
    var low := if v < 0.0 then 0.0 else v;
    if low > ScreenWidth - PlayerWidth then ScreenWidth - PlayerWidth else low
  }

  class Enemy {
    var x: real
    var y: real
    var diving: bool
    var movingDown: bool
    /** Formation row and column, fixed at construction. */
    const row: int
    const column: int
    const color: Color

    /** A new enemy sits at (0, 0), neither diving nor entering. */
    constructor (color: Color, row: int, column: int)
      ensures this.color == color && this.row == row && this.column == column
      ensures x == 0.0 && y == 0.0 && !diving && !movingDown
    {
      this.color := color;
      this.row := row;
      this.column := column;
      x, y := 0.0, 0.0;
      diving, movingDown := false, false;
    }

    function State(): EnemyState
      reads this
    {
      EnemyState(x, y, diving, movingDown, row)
    }

    function Bounds(): Box
      reads this
    {
      Box(x, y, EnemySize, EnemySize)
    }

    /** Places the enemy on formation slot (col, row). */
    method ResetPosition(col: int, row: int)
      modifies this`x, this`y
      ensures x == SlotX(col) && y == SlotY(row)
    {
      var spacing := EnemySpacing;
      var startX := 50.0;
      var startY := 70.0;
      x := startX + col as real * (EnemySize + spacing);
      y := startY + row as real * (EnemySize + spacing);
    }

    /** Places a replacement at the top of the screen, above column xPosition. */
    method SetSpawnPosition(xPosition: real)
      modifies this`x, this`y
      ensures x == xPosition && y == 0.0
    {
      x := xPosition;
      y := 0.0;
    }

    /** Marks the enemy as entering; the target row is not stored. */
    method StartMovingDown(targetRow: int)
      modifies this`movingDown
      ensures movingDown
    {
      movingDown := true;
    }

    /** Marks the enemy as diving; nothing else changes. */
    method Dive()
      modifies this`diving
      ensures diving
    {
      diving := true;
    }

    /**
     * Moves the enemy one frame. The shared formation direction comes in as
     * direction and the possibly turned direction goes out; the player's
     * position and the aim normalisation stand for the game manager's
     * getters and Math.sqrt.
     */
    method MovePattern(direction: int, playerX: real, playerY: real, aim: Aim) returns (newDirection: int)
      modifies this`x, this`y, this`movingDown
      ensures (State(), newDirection) == Step(old(State()), direction, playerX, playerY, aim)
    {
      var distanceFromBottom := ScreenHeight - y - EnemySize;
      newDirection := direction;
      if movingDown {
        y := y + EnemySpeed;
        if y >= row as real * (EnemySize + 10.0) + 70.0 {
          movingDown := false;
        }
      } else if diving {
        if distanceFromBottom > 200.0 {
          var u := aim(playerX - x, playerY - y);
          x := x + u.0 * (EnemySpeed / 1.5);
          y := y + u.1 * (EnemySpeed / 1.5);
        } else {
          y := y + EnemySpeed;
        }
      } else {
        x := x + direction as real * EnemySpeed / 1.5;
        if x > ScreenWidth - EnemySize {
          newDirection := -1;
        } else if x < 0.0 {
          newDirection := 1;
        }
      }
    }

    /**
     * A missile aimed at the player, leaving from the middle of the enemy's
     * bottom edge at speed 0.2; none once the enemy is within 200 pixels
     * of the bottom.
     */
    method ShootTowardsPlayer(playerX: real, playerY: real, aim: Aim) returns (m: Missile?)
      ensures m == null <==> DistanceFromBottom(y) <= HomingFloor
      ensures m != null ==> fresh(m) && m.shooter == EnemySprite(this)
      ensures m != null ==> m.x + MissileWidth / 2.0 == x + EnemySize / 2.0 && m.y + MissileHeight == y + EnemySize
      ensures m != null ==> (m.directionX, m.directionY) == aim(playerX - x, playerY - y)
      ensures m != null ==> m.speed == EnemyMissileSpeed
    {
      var distanceFromBottom := ScreenHeight - y - EnemySize;
      if distanceFromBottom <= 200.0 {
        return null;
      }
      var u := aim(playerX - x, playerY - y);
      var missileStartX := x + EnemySize / 2.0;
      var missileStartY := y + EnemySize;
      m := new Missile(missileStartX, missileStartY, EnemySprite(this));
      m.SetDirection(u.0, u.1);
      m.SetSpeed(EnemyMissileSpeed);
    }

    /** Enemies never collide with enemies; anything else is a bounds test. */
    function CollidesWith(other: Sprite, hit: Overlap): (r: bool)
      reads this, other.Object()
      ensures other.EnemySprite? ==> !r
      ensures !other.EnemySprite? ==> (r <==> hit(Bounds(), other.Bounds()))
    {
      if other.EnemySprite? then false else hit(Bounds(), other.Bounds())
    }
  }

  class Missile {
    var x: real
    var y: real
    var speed: real
    var directionX: real
    var directionY: real
    /** The entity that fired the missile, fixed at construction. */
    const shooter: Sprite

    /**
     * A missile centred horizontally on startX with its bottom edge at
     * startY, speed 0.05 and no direction yet.
     */
    constructor (startX: real, startY: real, shooter: Sprite)
      ensures x == startX - MissileWidth / 2.0 && y == startY - MissileHeight
      ensures speed == MissileDefaultSpeed && directionX == 0.0 && directionY == 0.0
      ensures this.shooter == shooter
    {
      speed := MissileDefaultSpeed;
      x := startX - MissileWidth / 2.0;
      y := startY - MissileHeight;
      directionX, directionY := 0.0, 0.0;
      this.shooter := shooter;
    }

    method Move(xIncrement: real, yIncrement: real)
      modifies this`x, this`y
      ensures x == old(x) + xIncrement && y == old(y) + yIncrement
    {
      x := x + xIncrement;
      y := y + yIncrement;
    }

    method SetSpeed(newSpeed: real)
      modifies this`speed
      ensures speed == newSpeed
    {
      speed := newSpeed;
    }

    method SetDirection(xDirection: real, yDirection: real)
      modifies this`directionX, this`directionY
      ensures directionX == xDirection && directionY == yDirection
    {
      directionX := xDirection;
      directionY := yDirection;
    }

    function Bounds(): Box
      reads this
    {
      Box(x, y, MissileWidth, MissileHeight)
    }

    /** Missiles never collide with missiles; anything else is a bounds test. */
    function CollidesWith(other: Sprite, hit: Overlap): (r: bool)
      reads this, other.Object()
      ensures other.MissileSprite? ==> !r
      ensures !other.MissileSprite? ==> (r <==> hit(Bounds(), other.Bounds()))
    {
      if other.MissileSprite? then false else hit(Bounds(), other.Bounds())
    }
  }

  class Player {
    var x: real
    var y: real

    /** The player never leaves the screen sideways. */
    ghost predicate Valid()
      reads this
    {
      0.0 <= x <= ScreenWidth - PlayerWidth
    }

    constructor ()
      ensures x == PlayerStartX && y == PlayerStartY && Valid()
    {
      new;
      ResetPosition();
    }

    /** Puts the player at the bottom middle of the window. */
    method ResetPosition()
      modifies this
      ensures x == PlayerStartX && y == PlayerStartY && Valid()
    {
      x := PlayerStartX;
      y := PlayerStartY;
    }

    /** Moves by the increments, clamping x to the screen; y is not clamped. */
    method Move(xIncrement: real, yIncrement: real)
      modifies this
      ensures x == Clamp(old(x) + xIncrement) && y == old(y) + yIncrement
      ensures Valid()
    {
      var newX := x + xIncrement;
      var newY := y + yIncrement;
      if newX < 0.0 {
        newX := 0.0;
      }
      if newX > ScreenWidth - PlayerWidth {
        newX := ScreenWidth - PlayerWidth;
      }
      x := newX;
      y := newY;
    }

    function Bounds(): Box
      reads this
    {
      Box(x, y, PlayerWidth, PlayerHeight)
    }

    /** The player can be hit by enemies and missiles only. */
    function CollidesWith(other: Sprite, hit: Overlap): (r: bool)
      reads this, other.Object()
      ensures other.PlayerSprite? ==> !r
      ensures !other.PlayerSprite? ==> (r <==> hit(Bounds(), other.Bounds()))
    {
      if other.EnemySprite? || other.MissileSprite? then hit(Bounds(), other.Bounds()) else false
    }

    /**
     * A missile fired straight up from the middle of the player's top,
     * with the player as its shooter.
     */
    method Shoot() returns (m: Missile)
      ensures fresh(m) && m.shooter == PlayerSprite(this)
      ensures m.directionX == 0.0 && m.directionY == -1.0 && m.speed == MissileDefaultSpeed
      ensures m.x + MissileWidth / 2.0 == x + PlayerWidth / 2.0 && m.y + MissileHeight == y
    {
      m := new Missile(x + PlayerWidth / 2.0, y, PlayerSprite(this));
      m.SetDirection(0.0, -1.0);
    }
  }
}
