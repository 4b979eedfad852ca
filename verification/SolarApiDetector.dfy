/** SolarApiDetector (solar_api_detector.cpp): the slots that keep the table of probes. */
module SolarApi {
  import opened SolarApiModel

  class SolarApiDetector {
    var mDetectorReplyToInverter: seq<Entry>
    ghost var emitted: seq<Emission>

    ghost function Abs(): State
      reads this
    {
      State(mDetectorReplyToInverter, emitted)
    }

    constructor ()
      ensures Abs() == State([], [])
    {
      mDetectorReplyToInverter, emitted := [], [];
    }

    method SetFinished(reply: nat)
      modifies this`emitted
      ensures Abs() == Emit(old(Abs()), Finished(reply))
    {
      emitted := emitted + [Finished(reply)];
    }

    method SetResult(reply: nat, inverter: InverterInfo, bySunspec: bool)
      modifies this`emitted
      ensures Abs() == Emit(old(Abs()), DeviceFound(reply, inverter, bySunspec))
    {
      emitted := emitted + [DeviceFound(reply, inverter, bySunspec)];
    }

    method AddProbe(reply: nat, inverter: InverterInfo)
      modifies this`mDetectorReplyToInverter
      ensures mDetectorReplyToInverter == old(mDetectorReplyToInverter) + [Entry(reply, inverter, false)]
    {
      mDetectorReplyToInverter := mDetectorReplyToInverter + [Entry(reply, inverter, false)];
    }

    /** Each inverter whose type is not 255 gets a probe; if there is none, the reply is finished. */
    method OnConverterInfoFound(reply: nat, inverters: seq<InverterInfo>)
      modifies this
      ensures Abs() == SolarApiModel.OnConverterInfoFound(old(Abs()), reply, inverters)
    {
      var setFinished := true;
      ghost var probed: seq<InverterInfo> := [];
      assert Probed([]) == [] && Entries(reply, []) == [];
      hide Probed, Entries;
      assert inverters[0..] == inverters && inverters[|inverters|..] == [];
      for k := 0 to |inverters|
        invariant probed + Probed(inverters[k..]) == Probed(inverters)
        invariant mDetectorReplyToInverter == old(mDetectorReplyToInverter) + Entries(reply, probed)
        invariant emitted == old(emitted) && (setFinished <==> probed == [])
      {
        ProbedStep(inverters, k, probed);
        if inverters[k].deviceType != INVALID_TYPE {
          AddProbe(reply, inverters[k]);
          EntriesSnoc(old(mDetectorReplyToInverter), reply, probed, inverters[k]);
          probed := probed + [inverters[k]];
          setFinished := false;
        }
      }
      if setFinished {
        SetFinished(reply);
      }
    }

    /** deviceFound of the probe at index i. */
    method OnSunspecDeviceFound(i: nat)
      requires i < |mDetectorReplyToInverter|
      modifies this
      ensures Abs() == SolarApiModel.OnSunspecDeviceFound(old(Abs()), i)
    {
      var device := mDetectorReplyToInverter[i];
      mDetectorReplyToInverter := mDetectorReplyToInverter[i := device.(deviceFound := true)];
      SetResult(device.reply, device.inverter, true);
    }

    /** finished of the probe at index i. */
    method OnSunspecDone(i: nat)
      requires i < |mDetectorReplyToInverter|
      modifies this
      ensures Abs() == SolarApiModel.OnSunspecDone(old(Abs()), i)
    {
      hide IsPending;
      var device := mDetectorReplyToInverter[i];
      mDetectorReplyToInverter := mDetectorReplyToInverter[..i] + mDetectorReplyToInverter[i + 1..];
      if device.deviceFound {
        CheckFinished(device.reply);
        return;
      }
      SetResult(device.reply, device.inverter, false);
      CheckFinished(device.reply);
    }

    method CheckFinished(reply: nat)
      modifies this`emitted
      ensures Abs() == SolarApiModel.CheckFinished(old(Abs()), reply)
    {
      for k := 0 to |mDetectorReplyToInverter|
        invariant forall j | 0 <= j < k ::
                    !(mDetectorReplyToInverter[j].reply == reply && !mDetectorReplyToInverter[j].deviceFound)
        invariant emitted == old(emitted)
      {
        var rti := mDetectorReplyToInverter[k];
        if rti.reply == reply && !rti.deviceFound {
          return;
        }
      }
      SetFinished(reply);
    }
  }
}
