/** SunspecDetector (sunspec_detector.cpp): the slots that carry out the walk of SunspecModel for one device. */
module Sunspec {
  import opened Bytes
  import opened Modbus
  import opened SunspecModel

  /** A SunspecDetector::Reply together with the slots that work on it. */
  class DetectorReply {
    var state: WalkState
    var currentRegister: u16
    var di: DeviceInfo
    var finished: bool
    var found: Option<DeviceInfo>
    ghost var requests: seq<Request>

    ghost function Abs(): Walk
      reads this
    {
      Walk(state, currentRegister, di, requests, finished, found)
    }

    /** start, and onConnected. */
    constructor (unitId: byte)
      requires unitId != 0
      ensures Abs() == Connected(unitId)
    {
      di := NewDevice(unitId);
      finished, found, requests := false, None, [];
      state := SunSpecHeader;
      currentRegister := 40000;
      new;
      StartRequest(2);
    }

    method StartRequest(regCount: u16)
      modifies this`requests
      ensures Abs() == StartNextRequest(old(Abs()), regCount)
    {
      requests := requests + [Request(currentRegister, regCount)];
    }

    method Finish()
      modifies this`finished
      ensures Abs() == SetDone(old(Abs()))
    {
      finished := true;
    }

    /** onFinished, unless setDone has taken the device out of the list already. */
    method HandleReply(values: seq<u16>)
      requires !finished && (state == ModuleContent ==> |values| != 1)
      modifies this
      ensures Abs() == SunspecModel.OnFinished(old(Abs()), values)
    {
      hide SunspecModel.OnHeader, SunspecModel.OnContent;
      match state {
        case SunSpecHeader =>
          var sunspecId := "";
          if |values| == 2 {
            sunspecId := GetString(values);
          }
          if sunspecId != "SunS" {
            Finish();
            return;
          }
          currentRegister := Wrap16(currentRegister as int + 2);
          state := ModuleContent;
          StartRequest(66);
        case ModuleHeader =>
          HandleHeader(values);
        case ModuleContent =>
          HandleContent(values);
      }
    }

    method HandleHeader(values: seq<u16>)
      requires !finished && state == ModuleHeader
      modifies this
      ensures Abs() == SunspecModel.OnHeader(old(Abs()), values)
    {
      if |values| < 2 {
        Finish();
        return;
      }
      var modelId, modelSize := values[0], values[1];
      if IsInverter(modelId) {
        di := di.(retrievalMode := if modelId > 103 then ProtocolSunSpecFloat else ProtocolSunSpecIntSf);
        di := di.(phaseCount := modelId % 10, inverterModelOffset := currentRegister);
      } else if modelId == 120 {
        di := di.(namePlateModelOffset := currentRegister);
        state := ModuleContent;
      } else if modelId == 123 {
        di := di.(immediateControlOffset := currentRegister);
        state := ModuleContent;
      } else if modelId == 0xFFFF {
        if di.identity.productName != "" && di.phaseCount > 0 && di.networkId > 0 {
          found := Some(di);
        }
        Finish();
        return;
      }
      if state == ModuleHeader {
        currentRegister := Wrap16(currentRegister as int + (2 + modelSize as int));
        StartRequest(2);
      } else {
        StartRequest(Wrap16(modelSize as int + 2));
      }
    }

    method HandleContent(values: seq<u16>)
      requires !finished && state == ModuleContent && |values| != 1
      modifies this
      ensures Abs() == SunspecModel.OnContent(old(Abs()), values)
    {
      hide GetString, GetScale;
      if |values| < 1 {
        Finish();
        return;
      }
      state := ModuleHeader;
      var modelId := values[0];
      if modelId == 1 {
        if |values| == 66 {
          var manufacturer := GetString(values[2..18]);
          var product := if manufacturer == "Fronius" then FroniusProduct
                         else if manufacturer == "SMA" then SmaProduct
                         else if manufacturer == "ABB" then AbbProduct
                         else SunSpecProduct;
          di := di.(identity := di.identity.(product := product));
          if product == SmaProduct {
            Finish();
            return;
          }
          NoteIdentity(values, manufacturer);
        }
      } else if modelId == 120 {
        if |values| > 4 {
          di := di.(maxPower := GetScaledValue(values[3], values[4]));
        }
        if |values| > 22 {
          di := di.(storageCapacity := GetScaledValue(values[21], values[22]));
        }
      } else if modelId == 123 {
        if |values| > 23 {
          di := di.(powerLimitScale := match GetScale(values[23]) case None => None case Some(s) => Some(100.0 / s));
        }
      }
      currentRegister := Wrap16(currentRegister as int + (2 + values[1] as int));
      StartRequest(2);
    }

    /** The strings of the common model. */
    method NoteIdentity(values: seq<u16>, manufacturer: string)
      requires |values| == 66 && manufacturer == ManufacturerOf(values)
      requires di.identity.product == ProductOf(manufacturer)
      modifies this`di
      ensures di == old(di).(identity := IdentityOf(values, old(di).identity))
    {
      hide GetString;
      var identity := di.identity;
      identity := identity.(productName := manufacturer + " " + GetString(values[18..34]));
      if identity.product == FroniusProduct {
        identity := identity.(dataManagerVersion := GetString(values[34..42]));
      }
      identity := identity.(firmwareVersion := GetString(values[42..50]), serialNumber := GetString(values[50..66]));
      di := di.(identity := identity);
    }

    /** onDisconnected. */
    method HandleDisconnect()
      modifies this`finished
      ensures Abs() == SetDone(old(Abs()))
    {
      Finish();
    }
  }
}
