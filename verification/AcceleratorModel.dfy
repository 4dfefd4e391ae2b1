/** The accelerator data model of include/sysal/model/accelerator.hpp. */
module AcceleratorModel {
  import opened Options
  import opened PciAddresses

  /** The vendor text: the three names the resolver knows, or any other. */
  datatype Vendor = Nvidia | Amd | Intel | OtherVendor(name: string)

  datatype Kind = Gpu | Npu | Fpga | OtherKind

  /** One device. A device with a parent UUID is a MIG instance of that physical device. */
  datatype Device = Device(
    id: nat,
    kind: Kind,
    vendor: Vendor,
    name: string,
    pci: Option<PciAddress>,
    numa: Option<nat>,
    memory: Option<nat>,
    driver: Option<nat>,
    visible: bool,
    uuid: Option<string>,
    parentUuid: Option<string>,
    gpuInstance: Option<nat>,
    computeInstance: Option<nat>)
  {
    predicate Physical() {
      parentUuid.None?
    }
  }

  predicate HasId(devices: seq<Device>, id: nat) {
    exists i | 0 <= i < |devices| :: devices[i].id == id
  }

  ghost predicate DistinctIds(devices: seq<Device>) {
    forall i, j | 0 <= i < j < |devices| :: devices[i].id != devices[j].id
  }
}
