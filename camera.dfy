// The fly-through cameras of the OpenGL exercises (lab2/Camera.hpp and
// lab3/src/Camera.cpp): Euler angles turned by the mouse, a zoom changed
// by the scroll wheel and a position moved by the keyboard. The
// orthonormal frame updateCameraVectors computes from yaw, pitch and the
// world up (cosines, sines, cross products, normalisation) is given to the
// constructor as a function. Floats are modelled as reals.

module CameraControls {
  import opened Vectors

  /** front, right and up as updateCameraVectors leaves them. */
  datatype Frame = Frame(front: Vec3, right: Vec3, up: Vec3)

  /** The frame for yaw, pitch and the world up vector. */
  type FrameOf = (real, real, Vec3) -> Frame

  const MaxPitch: real := 89.0
  const MinZoom: real := 1.0
  const MaxZoom: real := 45.0

  /** The pitch after the constraint: pulled into [-89, 89]. */
  function ConstrainPitch(pitch: real): (p: real)
    ensures -MaxPitch <= p <= MaxPitch
    ensures -MaxPitch <= pitch <= MaxPitch ==> p == pitch
    ensures pitch > MaxPitch ==> p == MaxPitch
    ensures pitch < -MaxPitch ==> p == -MaxPitch
  {
    var p := if pitch > MaxPitch then MaxPitch else pitch;
    if p < -MaxPitch then -MaxPitch else p
  }

  /** The zoom after scrolling by yoffset: zoom - yoffset pulled into
      [1, 45]. */
  function ScrollZoom(zoom: real, yoffset: real): (z: real)
    ensures MinZoom <= z <= MaxZoom
    ensures MinZoom <= zoom - yoffset <= MaxZoom ==> z == zoom - yoffset
  {
    var z := zoom - yoffset;
    var z := if z < MinZoom then MinZoom else z;
    if z > MaxZoom then MaxZoom else z
  }

  /** Scrolling within the range is undone by scrolling back. */
  lemma ScrollBack(zoom: real, yoffset: real)
    requires MinZoom <= zoom <= MaxZoom && MinZoom <= zoom - yoffset <= MaxZoom
    ensures ScrollZoom(ScrollZoom(zoom, yoffset), -yoffset) == zoom
  {
  }
}

module Lab2Camera {
  import opened Vectors
  import opened CameraControls

  datatype Movement = Forward | Backward | Left | Right

  const Yaw: real := -90.0
  const Pitch: real := 0.0
  const Speed: real := 2.5
  const Sensitivity: real := 0.1
  const Zoom: real := 45.0

  /** The position after moving in direction by velocity. */
  function Moved(position: Vec3, front: Vec3, right: Vec3, direction: Movement, velocity: real): Vec3 {
    match direction
    case Forward => position.Plus(front.Scale(velocity))
    case Backward => position.Minus(front.Scale(velocity))
    case Left => position.Minus(right.Scale(velocity))
    case Right => position.Plus(right.Scale(velocity))
  }

  /** Opposite keys cancel: forward then backward, or left then right,
      by the same velocity returns to the start. */
  lemma OppositeMovesCancel(position: Vec3, front: Vec3, right: Vec3, velocity: real)
    ensures Moved(Moved(position, front, right, Forward, velocity), front, right, Backward, velocity) == position
    ensures Moved(Moved(position, front, right, Left, velocity), front, right, Right, velocity) == position
    ensures Moved(position, front, right, Forward, velocity).Minus(position) == front.Scale(velocity)
  {
  }

  class Camera {
    var position: Vec3
    var front: Vec3
    var up: Vec3
    var right: Vec3
    var worldUp: Vec3
    var yaw: real
    var pitch: real
    var movementSpeed: real
    var mouseSensitivity: real
    var zoom: real
    const frameOf: FrameOf

    /** Camera(position, up, yaw, pitch) */
    constructor (position: Vec3, up: Vec3, yaw: real, pitch: real, frameOf: FrameOf)
      ensures this.position == position && this.worldUp == up && this.yaw == yaw && this.pitch == pitch
      ensures movementSpeed == Speed && mouseSensitivity == Sensitivity && zoom == Zoom
      ensures this.frameOf == frameOf && Oriented()
    {
      this.frameOf := frameOf;
      this.front := Vec3(0.0, 0.0, -1.0);
      this.movementSpeed := Speed;
      this.mouseSensitivity := Sensitivity;
      this.zoom := Zoom;
      this.position := position;
      this.worldUp := up;
      this.yaw := yaw;
      this.pitch := pitch;
      new;
      UpdateCameraVectors();
    }

    /** Camera(posX, posY, posZ, upX, upY, upZ, yaw, pitch) */
    constructor FromScalars(posX: real, posY: real, posZ: real, upX: real, upY: real, upZ: real,
                            yaw: real, pitch: real, frameOf: FrameOf)
      ensures position == Vec3(posX, posY, posZ) && worldUp == Vec3(upX, upY, upZ)
      ensures this.yaw == yaw && this.pitch == pitch
      ensures movementSpeed == Speed && mouseSensitivity == Sensitivity && zoom == Zoom
      ensures this.frameOf == frameOf && Oriented()
    {
      this.frameOf := frameOf;
      this.front := Vec3(0.0, 0.0, -1.0);
      this.movementSpeed := Speed;
      this.mouseSensitivity := Sensitivity;
      this.zoom := Zoom;
      new;
      position := Vec3(posX, posY, posZ);
      worldUp := Vec3(upX, upY, upZ);
      this.yaw := yaw;
      this.pitch := pitch;
      UpdateCameraVectors();
    }

    /** front, right and up are the frame of the current angles. */
    predicate Oriented()
      reads this
    {
      Frame(front, right, up) == frameOf(yaw, pitch, worldUp)
    }

    method UpdateCameraVectors()
      modifies this
      ensures Oriented()
      ensures position == old(position) && worldUp == old(worldUp) && yaw == old(yaw) && pitch == old(pitch)
      ensures movementSpeed == old(movementSpeed) && mouseSensitivity == old(mouseSensitivity)
      ensures zoom == old(zoom)
    {
      var f := frameOf(yaw, pitch, worldUp);
      front := f.front;
      right := f.right;
      up := f.up;
    }

    /** Only the position moves, by speed * deltaTime along front or
        right. */
    method ProcessKeyboard(direction: Movement, deltaTime: real)
      modifies this
      ensures position == Moved(old(position), front, right, direction, movementSpeed * deltaTime)
      ensures front == old(front) && up == old(up) && right == old(right) && worldUp == old(worldUp)
      ensures yaw == old(yaw) && pitch == old(pitch) && zoom == old(zoom)
      ensures movementSpeed == old(movementSpeed) && mouseSensitivity == old(mouseSensitivity)
    {
      var velocity := movementSpeed * deltaTime;
      if direction == Forward {
        position := position.Plus(front.Scale(velocity));
      }
      if direction == Backward {
        position := position.Minus(front.Scale(velocity));
      }
      if direction == Left {
        position := position.Minus(right.Scale(velocity));
      }
      if direction == Right {
        position := position.Plus(right.Scale(velocity));
      }
    }

    /** yaw turns by xoffset * sensitivity with no limit; pitch by
        yoffset * sensitivity, constrained to [-89, 89] when asked. */
    method ProcessMouseMovement(xoffset: real, yoffset: real, constrainPitch: bool)
      modifies this
      ensures yaw == old(yaw) + xoffset * mouseSensitivity
      ensures var p := old(pitch) + yoffset * mouseSensitivity;
              pitch == if constrainPitch then ConstrainPitch(p) else p
      ensures constrainPitch ==> -MaxPitch <= pitch <= MaxPitch
      ensures Oriented()
      ensures position == old(position) && worldUp == old(worldUp) && zoom == old(zoom)
      ensures movementSpeed == old(movementSpeed) && mouseSensitivity == old(mouseSensitivity)
    {
      var xoffset := xoffset * mouseSensitivity;
      var yoffset := yoffset * mouseSensitivity;
      yaw := yaw + xoffset;
      pitch := pitch + yoffset;
      if constrainPitch {
        if pitch > 89.0 {
          pitch := 89.0;
        }
        if pitch < -89.0 {
          pitch := -89.0;
        }
      }
      UpdateCameraVectors();
    }

    /** Only the zoom changes, and it ends in [1, 45]. */
    method ProcessMouseScroll(yoffset: real)
      modifies this
      ensures zoom == ScrollZoom(old(zoom), yoffset) && MinZoom <= zoom <= MaxZoom
      ensures position == old(position) && front == old(front) && up == old(up) && right == old(right)
      ensures worldUp == old(worldUp) && yaw == old(yaw) && pitch == old(pitch)
      ensures movementSpeed == old(movementSpeed) && mouseSensitivity == old(mouseSensitivity)
    {
      zoom := zoom - yoffset;
      if zoom < 1.0 {
        zoom := 1.0;
      }
      if zoom > 45.0 {
        zoom := 45.0;
      }
    }
  }

  /** Pressing forward and then backward for the same time leaves the
      camera where it was. */
  method ForwardThenBackward(camera: Camera, deltaTime: real)
    modifies camera
    ensures camera.position == old(camera.position)
  {
    camera.ProcessKeyboard(Forward, deltaTime);
    camera.ProcessKeyboard(Backward, deltaTime);
    OppositeMovesCancel(old(camera.position), camera.front, camera.right, camera.movementSpeed * deltaTime);
  }
}

module Lab3Camera {
  import opened Vectors
  import opened CameraControls

  datatype Movement = Forward | Backward | Left | Right | Up | Down

  // The defaults of the exercise's camera header (lab4/src/Camera.hpp;
  // the header next to lab3/src/Camera.cpp is not part of this model).
  const Yaw: real := -90.0
  const Pitch: real := -15.0
  const Speed: real := 2.5
  const Sensitivity: real := 0.1
  const Zoom: real := 90.0

  /** The position after moving in direction by velocity. */
  function Moved(position: Vec3, front: Vec3, right: Vec3, up: Vec3, direction: Movement, velocity: real): Vec3 {
    match direction
    case Forward => position.Plus(front.Scale(velocity))
    case Backward => position.Minus(front.Scale(velocity))
    case Left => position.Minus(right.Scale(velocity))
    case Right => position.Plus(right.Scale(velocity))
    case Up => position.Plus(up.Scale(velocity))
    case Down => position.Minus(up.Scale(velocity))
  }

  /** Up and down by the same velocity cancel, and up moves along the
      camera's up vector. */
  lemma UpDownCancel(position: Vec3, front: Vec3, right: Vec3, up: Vec3, velocity: real)
    ensures Moved(Moved(position, front, right, up, Up, velocity), front, right, up, Down, velocity) == position
    ensures Moved(position, front, right, up, Up, velocity).Minus(position) == up.Scale(velocity)
  {
  }

  class Camera {
    var position: Vec3
    var front: Vec3
    var up: Vec3
    var right: Vec3
    var worldUp: Vec3
    var yaw: real
    var pitch: real
    var movementSpeed: real
    var mouseSensitivity: real
    var zoom: real
    const frameOf: FrameOf

    /** Camera(position, up, yaw, pitch) */
    constructor (position: Vec3, up: Vec3, yaw: real, pitch: real, frameOf: FrameOf)
      ensures this.position == position && this.worldUp == up && this.yaw == yaw && this.pitch == pitch
      ensures movementSpeed == Speed && mouseSensitivity == Sensitivity && zoom == Zoom
      ensures this.frameOf == frameOf && Oriented()
    {
      this.frameOf := frameOf;
      this.front := Vec3(0.0, 0.0, -1.0);
      this.movementSpeed := Speed;
      this.mouseSensitivity := Sensitivity;
      this.zoom := Zoom;
      this.position := position;
      this.worldUp := up;
      this.yaw := yaw;
      this.pitch := pitch;
      new;
      UpdateCameraVectors();
    }

    /** Camera(posX, posY, posZ, upX, upY, upZ, yaw, pitch): every
        argument is ignored; the camera starts at the origin with world up
        (0, 1, 0) and the default angles. */
    constructor FromScalars(posX: real, posY: real, posZ: real, upX: real, upY: real, upZ: real,
                            yaw: real, pitch: real, frameOf: FrameOf)
      ensures position == Vec3(0.0, 0.0, 0.0) && worldUp == Vec3(0.0, 1.0, 0.0)
      ensures this.yaw == Yaw && this.pitch == Pitch
      ensures movementSpeed == Speed && mouseSensitivity == Sensitivity && zoom == Zoom
      ensures this.frameOf == frameOf && Oriented()
    {
      this.frameOf := frameOf;
      this.front := Vec3(0.0, 0.0, -1.0);
      this.movementSpeed := Speed;
      this.mouseSensitivity := Sensitivity;
      this.zoom := Zoom;
      this.position := Vec3(0.0, 0.0, 0.0);
      this.worldUp := Vec3(0.0, 1.0, 0.0);
      this.yaw := Yaw;
      this.pitch := Pitch;
      new;
      UpdateCameraVectors();
    }

    predicate Oriented()
      reads this
    {
      Frame(front, right, up) == frameOf(yaw, pitch, worldUp)
    }

    method UpdateCameraVectors()
      modifies this
      ensures Oriented()
      ensures position == old(position) && worldUp == old(worldUp) && yaw == old(yaw) && pitch == old(pitch)
      ensures movementSpeed == old(movementSpeed) && mouseSensitivity == old(mouseSensitivity)
      ensures zoom == old(zoom)
    {
      var f := frameOf(yaw, pitch, worldUp);
      front := f.front;
      right := f.right;
      up := f.up;
    }

    /** Only the position moves, by speed * deltaTime along front, right
        or up. */
    method ProcessKeyboard(direction: Movement, deltaTime: real)
      modifies this
      ensures position == Moved(old(position), front, right, up, direction, movementSpeed * deltaTime)
      ensures front == old(front) && up == old(up) && right == old(right) && worldUp == old(worldUp)
      ensures yaw == old(yaw) && pitch == old(pitch) && zoom == old(zoom)
      ensures movementSpeed == old(movementSpeed) && mouseSensitivity == old(mouseSensitivity)
    {
      var velocity := movementSpeed * deltaTime;
      if direction == Forward {
        position := position.Plus(front.Scale(velocity));
      }
      if direction == Backward {
        position := position.Minus(front.Scale(velocity));
      }
      if direction == Left {
        position := position.Minus(right.Scale(velocity));
      }
      if direction == Right {
        position := position.Plus(right.Scale(velocity));
      }
      if direction == Up {
        position := position.Plus(up.Scale(velocity));
      }
      if direction == Down {
        position := position.Minus(up.Scale(velocity));
      }
    }

    method ProcessMouseMovement(xoffset: real, yoffset: real, constrainPitch: bool)
      modifies this
      ensures yaw == old(yaw) + xoffset * mouseSensitivity
      ensures var p := old(pitch) + yoffset * mouseSensitivity;
              pitch == if constrainPitch then ConstrainPitch(p) else p
      ensures constrainPitch ==> -MaxPitch <= pitch <= MaxPitch
      ensures Oriented()
      ensures position == old(position) && worldUp == old(worldUp) && zoom == old(zoom)
      ensures movementSpeed == old(movementSpeed) && mouseSensitivity == old(mouseSensitivity)
    {
      var xoffset := xoffset * mouseSensitivity;
      var yoffset := yoffset * mouseSensitivity;
      yaw := yaw + xoffset;
      pitch := pitch + yoffset;
      if constrainPitch {
        if pitch > 89.0 {
          pitch := 89.0;
        }
        if pitch < -89.0 {
          pitch := -89.0;
        }
      }
      UpdateCameraVectors();
    }

    method ProcessMouseScroll(yoffset: real)
      modifies this
      ensures zoom == ScrollZoom(old(zoom), yoffset) && MinZoom <= zoom <= MaxZoom
      ensures position == old(position) && front == old(front) && up == old(up) && right == old(right)
      ensures worldUp == old(worldUp) && yaw == old(yaw) && pitch == old(pitch)
      ensures movementSpeed == old(movementSpeed) && mouseSensitivity == old(mouseSensitivity)
    {
      zoom := zoom - yoffset;
      if zoom < 1.0 {
        zoom := 1.0;
      }
      if zoom > 45.0 {
        zoom := 45.0;
      }
    }
  }

  /** The default zoom of 90 lies outside the scroll range: the first
      scroll, however small, brings it to at most 45. */
  lemma FirstScrollDropsDefaultZoom(yoffset: real)
    requires yoffset < 45.0
    ensures ScrollZoom(Zoom, yoffset) == MaxZoom
  {
  }
}
