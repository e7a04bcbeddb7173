// The two-layer configuration reader of crates/hardener-common/src/vendor_config.rs, over a file system that may
// change between one executor call and the next.
module VendorConfig {
  import opened Wrappers

  datatype ConfigLayer = Admin | Vendor

  datatype LayeredRead =
    | Found(path: string, layer: ConfigLayer, content: string)
    | Absent
    | Unreadable(path: string, reason: string, permissionDenied: bool)

  const ETC := "/etc/"
  const USR_ETC := "/usr/etc/"

  function VendorPathFor(adminPath: string): Option<string> {
    if ETC <= adminPath && |adminPath| > |ETC| then Some(USR_ETC + adminPath[|ETC|..]) else None
  }

  // -------------------------------------------------------------------------
  // The file system and the executor
  // -------------------------------------------------------------------------

  // What stands at a path. Reading fails on anything but content; asking whether it exists fails only where that
  // cannot be determined.
  datatype File = Missing | Content(text: string) | Sealed(why: ReadError) | Hidden(why: ReadError)

  datatype ReadError = ReadError(reason: string, permissionDenied: bool)

  type FileSystem = string -> File

  // The file system as each executor call finds it, by the number of the call.
  type World = nat -> FileSystem

  datatype Answer<T> = Ok(value: T) | Err(error: ReadError)

  const NOT_FOUND := ReadError("No such file or directory", false)

  function ReadFile(fs: FileSystem, path: string): Answer<string> {
    match fs(path)
    case Missing => Err(NOT_FOUND)
    case Content(text) => Ok(text)
    case Sealed(why) => Err(why)
    case Hidden(why) => Err(why)
  }

  function PathExists(fs: FileSystem, path: string): Answer<bool> {
    match fs(path)
    case Missing => Ok(false)
    case Content(_) => Ok(true)
    case Sealed(_) => Ok(true)
    case Hidden(why) => Err(why)
  }

  // -------------------------------------------------------------------------
  // The reader
  // -------------------------------------------------------------------------

  datatype Layer = LayerContent(text: string) | LayerAbsent | LayerUnreadable(error: ReadError)

  // Reads one path with calls number `at` and, when the read fails, `at + 1`.
  function ReadOne(world: World, at: nat, path: string): Layer {
    match ReadFile(world(at), path)
    case Ok(content) => LayerContent(content)
    case Err(e) => if PathExists(world(at + 1), path) == Ok(false) then LayerAbsent else LayerUnreadable(e)
  }

  function Attributed(layer: Layer, path: string, owner: ConfigLayer): LayeredRead {
    match layer
    case LayerContent(content) => Found(path, owner, content)
    case LayerAbsent => Absent
    case LayerUnreadable(e) => Unreadable(path, e.reason, e.permissionDenied)
  }

  // The admin layer first, and the vendor layer only on confirmed absence.
  function ReadLayered(world: World, adminPath: string): LayeredRead {
    var admin := ReadOne(world, 0, adminPath);
    if !admin.LayerAbsent? then Attributed(admin, adminPath, Admin)
    else
      var vendor := VendorPathFor(adminPath);
      if vendor.None? then Absent else Attributed(ReadOne(world, 2, vendor.value), vendor.value, Vendor)
  }

  // -------------------------------------------------------------------------
  // What is in force
  // -------------------------------------------------------------------------

  function Outcome(file: File, path: string, owner: ConfigLayer): LayeredRead {
    match file
    case Missing => Absent
    case Content(text) => Found(path, owner, text)
    case Sealed(why) => Unreadable(path, why.reason, why.permissionDenied)
    case Hidden(why) => Unreadable(path, why.reason, why.permissionDenied)
  }

  // The configuration the system obeys at one instant: the first layer that has a file wins entirely.
  function InForce(fs: FileSystem, adminPath: string): LayeredRead {
    if fs(adminPath) != Missing then Outcome(fs(adminPath), adminPath, Admin)
    else
      var vendor := VendorPathFor(adminPath);
      if vendor.None? then Absent else Outcome(fs(vendor.value), vendor.value, Vendor)
  }

  // Whether an answer was the one in force at one of the call's four instants.
  ghost predicate WasInForce(world: World, adminPath: string, answer: LayeredRead) {
    exists t: nat :: t <= 3 && InForce(world(t), adminPath) == answer
  }

  // The vendor layer does not change while the call runs.
  ghost predicate VendorFixed(world: World, adminPath: string) {
    VendorPathFor(adminPath).Some? ==>
      forall t: nat | t <= 3 :: world(t)(VendorPathFor(adminPath).value) == world(0)(VendorPathFor(adminPath).value)
  }

  // -------------------------------------------------------------------------
  // Results
  // -------------------------------------------------------------------------

  // A counterpart is `/usr/etc/` joined to what follows `/etc/`, exactly for paths below `/etc`; different paths have
  // different ones, and a counterpart has none itself.
  lemma CounterpartIsExact(adminPath: string, other: string)
    ensures VendorPathFor(adminPath).Some? <==> exists rest :: rest != "" && adminPath == "/etc/" + rest
    ensures forall rest | rest != "" && adminPath == "/etc/" + rest ::
              VendorPathFor(adminPath) == Some("/usr/etc/" + rest)
    ensures VendorPathFor(adminPath).Some? ==> VendorPathFor(VendorPathFor(adminPath).value).None?
    ensures VendorPathFor(adminPath).Some? && VendorPathFor(adminPath) == VendorPathFor(other) ==> adminPath == other
  {
    if VendorPathFor(adminPath).Some? {
      var rest := adminPath[|ETC|..];
      assert adminPath == ETC + rest;
      var vendor := USR_ETC + rest;
      assert vendor[1] == 'u' && ETC[1] == 'e';
      if VendorPathFor(other) == Some(vendor) {
        var rest' := other[|ETC|..];
        assert (USR_ETC + rest')[|USR_ETC|..] == rest' && vendor[|USR_ETC|..] == rest;
        assert other == ETC + rest';
      }
    }
    forall rest | rest != "" && adminPath == "/etc/" + rest
      ensures VendorPathFor(adminPath) == Some("/usr/etc/" + rest)
    {
      assert ETC <= adminPath && adminPath[|ETC|..] == rest;
    }
  }

  // Why a file that is not read is not.
  function Refusal(file: File): ReadError
    requires !file.Content?
  {
    match file
    case Missing => ReadError("No such file or directory", false)
    case Sealed(why) => why
    case Hidden(why) => why
  }

  // Every answer names the path it was read from, the layer that path belongs to, and what stood there then: the
  // contents, or why there were none to read.
  lemma AnswerNames(world: World, adminPath: string)
    ensures var answer := ReadLayered(world, adminPath);
            var admin, again := world(0)(adminPath), world(1)(adminPath);
            if admin.Content? then answer == Found(adminPath, Admin, admin.text)
            else if again != Missing
            then answer == Unreadable(adminPath, Refusal(admin).reason, Refusal(admin).permissionDenied)
            else
              var path := VendorPathFor(adminPath);
              && (path.None? ==> answer == Absent)
              && (path.Some? ==>
                    var vendor := world(2)(path.value);
                    && (answer == Absent <==> !vendor.Content? && world(3)(path.value) == Missing)
                    && (answer.Found? ==> vendor.Content? && answer == Found(path.value, Vendor, vendor.text))
                    && (answer.Unreadable? ==>
                          !vendor.Content?
                          && var why := Refusal(vendor);
                             answer == Unreadable(path.value, why.reason, why.permissionDenied)))
  {
  }

  // With nothing else at work the answer is exactly the configuration in force.
  lemma QuietReadIsInForce(world: World, adminPath: string)
    requires forall t: nat | t <= 3 :: world(t) == world(0)
    ensures ReadLayered(world, adminPath) == InForce(world(0), adminPath)
  {
    assert world(1) == world(0) && world(2) == world(0) && world(3) == world(0);
  }

  // The two worlds have the same vendor layer.
  ghost predicate SameVendor(world: World, other: World, vendor: string) {
    forall t: nat | t <= 3 :: other(t)(vendor) == world(t)(vendor)
  }

  // Whatever the admin layer does beside this vendor layer, what is found or found absent was in force at some instant.
  ghost predicate NeverMisled(world: World, adminPath: string, vendor: string) {
    forall other: World | SameVendor(world, other, vendor) ::
      var answer := ReadLayered(other, adminPath); !answer.Unreadable? ==> WasInForce(other, adminPath, answer)
  }

  // The vendor layer as it was when the admin file was last asked for is the one the answer is taken from: the same
  // contents where contents are read, and absent where absence is confirmed.
  ghost predicate VendorHolds(world: World, vendor: string) {
    && (world(2)(vendor).Content? ==> world(1)(vendor) == world(2)(vendor))
    && (!world(2)(vendor).Content? && world(3)(vendor).Missing? ==> world(1)(vendor).Missing?)
  }

  // An answer was in force if the vendor layer held, and the admin layer then had nothing.
  lemma HeldAnswerWasInForce(world: World, adminPath: string, vendor: string)
    requires VendorPathFor(adminPath) == Some(vendor) && VendorHolds(world, vendor)
    ensures var answer := ReadLayered(world, adminPath); !answer.Unreadable? ==> WasInForce(world, adminPath, answer)
  {
    var answer := ReadLayered(world, adminPath);
    if answer.Found? && answer.layer.Admin? {
      assert InForce(world(0), adminPath) == answer;
    } else if !answer.Unreadable? {
      assert InForce(world(1), adminPath) == answer;
    }
  }

  // The same vendor layer, beside an admin file that is gone for the second call alone.
  function Flicker(world: World, adminPath: string, why: ReadError): World {
    t => path => if path != adminPath then world(t)(path) else if t == 1 then Missing else Sealed(why)
  }

  lemma FlickerMisleads(world: World, adminPath: string, vendor: string, why: ReadError)
    requires VendorPathFor(adminPath) == Some(vendor) && !VendorHolds(world, vendor)
    ensures var other := Flicker(world, adminPath, why);
            && SameVendor(world, other, vendor)
            && var answer := ReadLayered(other, adminPath);
               !answer.Unreadable? && !WasInForce(other, adminPath, answer)
  {
    CounterpartIsExact(adminPath, vendor);
    var other := Flicker(world, adminPath, why);
    forall t: nat ensures other(t)(vendor) == world(t)(vendor) {
    }
    var answer := ReadLayered(other, adminPath);
    assert PathExists(other(1), adminPath) == Ok(false);
    forall t: nat | t <= 3 ensures InForce(other(t), adminPath) != answer {
      assert t != 1 ==> InForce(other(t), adminPath) == Unreadable(adminPath, why.reason, why.permissionDenied);
    }
  }

  // With both layers changing, every answer was in force at some instant of its call, whatever the admin layer did, if
  // and only if the vendor layer held from the second call on.
  lemma NeverMisledExactly(world: World, adminPath: string, vendor: string)
    requires VendorPathFor(adminPath) == Some(vendor)
    ensures NeverMisled(world, adminPath, vendor) <==> VendorHolds(world, vendor)
  {
    if VendorHolds(world, vendor) {
      forall other: World | SameVendor(world, other, vendor)
        ensures var answer := ReadLayered(other, adminPath);
                !answer.Unreadable? ==> WasInForce(other, adminPath, answer)
      {
        HeldAnswerWasInForce(other, adminPath, vendor);
      }
    } else {
      FlickerMisleads(world, adminPath, vendor, NOT_FOUND);
    }
  }

  // An unreadable admin file is never reported for one that could be read when it was tried.
  lemma UnreadableWasTried(world: World, adminPath: string)
    requires var answer := ReadLayered(world, adminPath); answer.Unreadable? && answer.path == adminPath
    ensures !world(0)(adminPath).Content? && world(1)(adminPath) != Missing
  {
    if VendorPathFor(adminPath) == Some(adminPath) {
      CounterpartIsExact(adminPath, adminPath);
    }
  }

  // In particular, while files come and go in the admin layer alone, whatever is found or found absent was in force;
  // and an unreadable answer is never given for a file that could be read when it was tried.
  lemma InterruptedReadWasInForce(world: World, adminPath: string)
    requires VendorFixed(world, adminPath)
    ensures var answer := ReadLayered(world, adminPath);
            && (!answer.Unreadable? ==> WasInForce(world, adminPath, answer))
            && (answer.Unreadable? && answer.path == adminPath ==>
                  !world(0)(adminPath).Content? && world(1)(adminPath) != Missing)
  {
    var answer := ReadLayered(world, adminPath);
    var vendor := VendorPathFor(adminPath);
    if vendor.Some? {
      NeverMisledExactly(world, adminPath, vendor.value);
      assert SameVendor(world, world, vendor.value);
    } else if answer.Found? {
      assert InForce(world(0), adminPath) == answer;
    } else if answer.Absent? {
      assert InForce(world(1), adminPath) == answer;
    }
    if answer.Unreadable? && answer.path == adminPath {
      UnreadableWasTried(world, adminPath);
    }
  }

  // Absence is reported only on confirmation: the admin file gone when asked, and its counterpart too if it has one.
  lemma AbsentIsConfirmed(world: World, adminPath: string)
    requires ReadLayered(world, adminPath) == Absent
    ensures world(1)(adminPath) == Missing
    ensures VendorPathFor(adminPath).Some? ==> world(3)(VendorPathFor(adminPath).value) == Missing
  {
  }

  // An admin file that stays, readable or not, is never answered with the vendor's contents.
  lemma StandingAdminFileIsObeyed(world: World, adminPath: string)
    requires forall t: nat | t <= 3 :: world(t)(adminPath) != Missing
    ensures ReadLayered(world, adminPath) != Absent
    ensures var answer := ReadLayered(world, adminPath); answer.Found? ==> answer.layer == Admin
  {
  }

  // A vendor file replaced between the second call and the third can be answered without ever having been in force.
  lemma ChangingVendorMisleads(adminPath: string, before: string, after: string)
    requires VendorPathFor(adminPath).Some? && before != after
    ensures exists world: World ::
              && world(1)(VendorPathFor(adminPath).value) == Content(before)
              && ReadLayered(world, adminPath).Found? && !WasInForce(world, adminPath, ReadLayered(world, adminPath))
  {
    var vendor := VendorPathFor(adminPath).value;
    CounterpartIsExact(adminPath, vendor);
    var world: World := t => path => Content(if t <= 1 then before else after);
    var other := Flicker(world, adminPath, NOT_FOUND);
    FlickerMisleads(world, adminPath, vendor, NOT_FOUND);
    assert other(1)(vendor) == Content(before);
    assert ReadLayered(other, adminPath) == Found(vendor, Vendor, after);
  }
}
