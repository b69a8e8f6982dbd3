/** What both Bluetooth clients know of the adapter: the paired devices it
    lists, the search for the configured name, and how opening a socket to
    the device found can end. */
module BondedDevices {
  import opened Options

  /** A paired device as the adapter lists it. */
  datatype BondedDevice = BondedDevice(name: string, address: nat)

  /** How opening the RFCOMM socket ends: creating it throws, connecting it
      throws, or it connects and hands out its streams. */
  datatype SocketOutcome = CreateFailed | ConnectFailed | Connected

  /** The first bonded device whose name is `name`. */
  function FindByName(devices: seq<BondedDevice>, name: string): (r: Option<BondedDevice>)
    ensures r.Some? <==> exists i :: 0 <= i < |devices| && devices[i].name == name
    ensures r.Some? ==> r.value.name == name && r.value in devices
  {
    if devices == [] then None
    else if devices[0].name == name then Some(devices[0])
    else FindByName(devices[1..], name)
  }

  /** The search stops at the first match. */
  lemma {:induction false} FindByNameFirst(devices: seq<BondedDevice>, name: string, i: nat)
    requires i < |devices| && devices[i].name == name
    requires forall j :: 0 <= j < i ==> devices[j].name != name
    ensures FindByName(devices, name) == Some(devices[i])
    decreases i
  {
    if i > 0 {
      FindByNameFirst(devices[1..], name, i - 1);
    }
  }

  /** The for-each over the bonded devices that stops at the first one
      named `name`. */
  method SearchBonded(bonded: seq<BondedDevice>, name: string) returns (found: Option<BondedDevice>)
    ensures found == FindByName(bonded, name)
  {
    found := None;
    var i := 0;
    while i < |bonded|
      invariant 0 <= i <= |bonded|
      invariant FindByName(bonded, name) == FindByName(bonded[i..], name)
    {
      if bonded[i].name == name {
        return Some(bonded[i]);
      }
      assert bonded[i..][1..] == bonded[i + 1..];
      i := i + 1;
    }
  }
}
