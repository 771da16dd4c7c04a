/**
 * The telemetry record shared by the event collector and the heatmap
 * visualizer (Assets/Scripts/AnalyticsManager.cs:15-22).
 *
 * Unity's single-precision floats are modelled as mathematical reals;
 * IEEE rounding is not part of this model.
 */
module GameplayEvents {

  /** Unity's Vector3: a point in world space. */
  datatype Vector3 = Vector3(x: real, y: real, z: real)

  /**
   * One recorded gameplay occurrence. The source declares it as a class,
   * but no code changes a record after it has been created, so it is a
   * value here.
   */
  datatype GameplayEvent = GameplayEvent(
    sessionID: string,
    eventType: string,
    position: Vector3,
    timestamp: string,
    sessionDuration: real)
}
