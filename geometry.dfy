/**
 * Screen size, entity dimensions and the two numeric collaborators of the
 * game engine that the model takes as parameters: rectangle overlap
 * (a JavaFX bounds test) and aim normalisation (a square root).
 */
module Geometry {

  /** Window size (Main.SCREEN_WIDTH, Main.SCREEN_HEIGHT). */
  const ScreenWidth: real := 800.0
  const ScreenHeight: real := 600.0

  /** Enemies are 30x30 rectangles laid out with 10 pixels between them. */
  const EnemySize: real := 30.0
  const EnemySpacing: real := 10.0
  /** Pixels an enemy moves per frame. */
  const EnemySpeed: real := 0.2

  /** Missiles are 5x15 rectangles. */
  const MissileWidth: real := 5.0
  const MissileHeight: real := 15.0
  /** Speed of a freshly built missile, and of one fired by a diver. */
  const MissileDefaultSpeed: real := 0.05
  const EnemyMissileSpeed: real := 0.2

  /** The player's triangle spans (0,45), (30,45), (15,0). */
  const PlayerWidth: real := 30.0
  const PlayerHeight: real := 45.0
  const PlayerStartX: real := 385.0
  const PlayerStartY: real := 525.0

  /** Axis-aligned bounds of an entity: top-left corner and size. */
  datatype Box = Box(x: real, y: real, width: real, height: real)

  /** The overlap test of two bounds; its geometry is not part of this model. */
  type Overlap = (Box, Box) -> bool

  /**
   * The normalisation of an aim vector (dx, dy): the unit vector when the
   * length is positive, (0, 0) otherwise. Computing it needs a square root,
   * so the model takes it as a parameter.
   */
  type Aim = (real, real) -> (real, real)
}
