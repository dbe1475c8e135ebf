/** The e-mail alert condition: armed by the user and a raw sample strictly
    above a fixed 30 km/h. */
module Alert {
  import opened Series

  /** The fixed alert speed in km/h; it applies to the raw samples. */
  const AlertSpeed: real := 30.0

  /** `alerte_active and max(wind) > 30`. The maximum is only taken when the
      alert is armed, so only then must the batch be non-empty. */
  function Triggered(armed: bool, wind: seq<real>): (fire: bool)
    requires armed ==> |wind| > 0
    ensures !armed ==> !fire
  {
    armed && Max(wind) > AlertSpeed
  }

  /** The alert fires exactly when it is armed and some hour's raw wind speed
      is strictly above 30 km/h. */
  lemma TriggeredIffSomeHourAbove(armed: bool, wind: seq<real>)
    requires |wind| > 0
    ensures Triggered(armed, wind) <==> armed && exists i :: 0 <= i < |wind| && wind[i] > AlertSpeed
  {
    if armed && Max(wind) > AlertSpeed {
      var k :| 0 <= k < |wind| && wind[k] == Max(wind);
    }
  }
}
