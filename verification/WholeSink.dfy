/** A backend that takes each flush whole or refuses it. */
module WholeSink {
  import opened Basics
  import opened KeyPackage

  /** One accepted flush. */
  datatype Emission = Emission(time: u32, points: seq<Point>)

  predicate AllTake(script: seq<bool>) {
    forall i :: 0 <= i < |script| ==> script[i]
  }

  class Sink {
    /** Whether each coming flush is taken; an exhausted script takes it. */
    var script: seq<bool>
    var emitted: seq<Emission>

    constructor (script: seq<bool>)
      ensures emitted == [] && this.script == script
    {
      this.script := script;
      emitted := [];
    }

    method Take(e: Emission) returns (rc: int)
      modifies this
      ensures rc == (if old(script) == [] || old(script)[0] then 0 else -1)
      ensures emitted == if rc == 0 then old(emitted) + [e] else old(emitted)
      ensures script == if old(script) == [] then [] else old(script)[1..]
    {
      var takes := true;
      if script != [] {
        takes := script[0];
        script := script[1..];
      }
      if !takes {
        return -1;
      }
      emitted := emitted + [e];
      return 0;
    }

    method KpFlush(kp: KP, time: u32) returns (rc: int)
      modifies this
      ensures rc == (if old(script) == [] || old(script)[0] then 0 else -1)
      ensures emitted == if rc == 0 then old(emitted) + [Emission(time, Enabled(kp.infos, time))] else old(emitted)
      ensures script == if old(script) == [] then [] else old(script)[1..]
    {
      rc := Take(Emission(time, Enabled(kp.infos, time)));
    }

    method SetSingle(key: Bytes, value: u64, time: u32) returns (rc: int)
      modifies this
      ensures rc == (if old(script) == [] || old(script)[0] then 0 else -1)
      ensures emitted == if rc == 0 then old(emitted) + [Emission(time, [Point(time, key, value)])] else old(emitted)
      ensures script == if old(script) == [] then [] else old(script)[1..]
    {
      rc := Take(Emission(time, [Point(time, key, value)]));
    }
  }
}
