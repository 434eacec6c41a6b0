/** The kernel attributes the smart-charging service reads and writes, the two
    places each of them may live, and the sysfs state they are read from. */
module Sysfs {

  /** Java's `int`: what `Integer.parseInt` returns and `String.valueOf` prints. */
  newtype int32 = x: int | -0x8000_0000 <= x < 0x8000_0000

  const INT32_MIN: int := -0x8000_0000
  const INT32_MAX: int := 0x7fff_ffff

  datatype Option<T> = None | Some(value: T)

  /** The five battery attributes: cooldown level, instantaneous current,
      charging on/off flag (`mmi_charging_enable`), capacity and temperature. */
  datatype Attr = CoolDown | Current | ChargingEnable | Capacity | Temperature

  /** The file name an attribute has in either directory. */
  function FileName(a: Attr): string
  {
    match a
    case CoolDown => "cool_down"
    case Current => "current_now"
    case ChargingEnable => "mmi_charging_enable"
    case Capacity => "capacity"
    case Temperature => "temp"
  }

  const LEGACY_DIR: string := "/sys/class/power_supply/battery/"
  const NEW_DIR: string := "/sys/devices/virtual/oplus_chg/battery/"

  /** The two directories an attribute may live in: the legacy power-supply
      class and the one newer charger drivers expose. */
  datatype Layout = Legacy | Oplus

  /** One of the ten candidate files. */
  datatype Path = Path(layout: Layout, attr: Attr)

  /** The file system path of a candidate. */
  function PathName(p: Path): string
  {
    match p.layout
    case Legacy => LEGACY_DIR + FileName(p.attr)
    case Oplus => NEW_DIR + FileName(p.attr)
  }

  /** The ten candidate paths are ten different files, so a `Path` stands
      for exactly one file. */
  lemma PathNameInjective(p: Path, q: Path)
    requires p != q
    ensures PathName(p) != PathName(q)
  {
    // The two directories differ at their sixth character; the five file
    // names have five different lengths.
    if p.layout != q.layout {
      assert PathName(p)[5] != PathName(q)[5];
    }
  }

  /** `getAvailablePath`: the new location when it exists, the legacy one
      otherwise. */
  function ResolvePath(existing: set<Path>, a: Attr): (p: Path)
    ensures p.attr == a
    ensures p.layout == Oplus <==> Path(Oplus, a) in existing
  {
    if Path(Oplus, a) in existing then Path(Oplus, a) else Path(Legacy, a)
  }

  lemma CoolDownCandidates(writable: set<Path>)
    ensures (exists p :: p in writable && p.attr == CoolDown) <==>
      Path(Legacy, CoolDown) in writable || Path(Oplus, CoolDown) in writable
  {
    if p :| p in writable && p.attr == CoolDown {
      assert p == Path(p.layout, CoolDown);
      if p.layout == Legacy {} else {}
    }
  }

  /** `isCoolDownAvailable`: one of the two cooldown locations is writable.
      Unlike `ResolvePath` it does not look at which location exists. */
  function CoolDownAvailable(writable: set<Path>): (b: bool)
    ensures b <==> exists p :: p in writable && p.attr == CoolDown
  {
    CoolDownCandidates(writable);
    Path(Legacy, CoolDown) in writable || Path(Oplus, CoolDown) in writable
  }

  /** The sysfs state seen by the service. `contents` maps a path to the
      integer its single line of text spells; a path absent from it holds no
      parsable integer (or is missing altogether). */
  datatype Fs = Fs(contents: map<Path, int>, existing: set<Path>, writable: set<Path>)

  /** `Integer.parseInt(Utils.readLine(getAvailablePath(...)))` for one
      attribute. It fails (NumberFormatException) when the resolved file holds
      no integer, when the integer does not fit in an `int`, or when `fault`
      (the paths whose read is garbled on this attempt) contains the path. */
  function ReadAttr(fs: Fs, a: Attr, fault: set<Path>): (r: Option<int32>)
    ensures var p := ResolvePath(fs.existing, a);
      r.Some? <==> p !in fault && p in fs.contents && INT32_MIN <= fs.contents[p] <= INT32_MAX
    ensures r.Some? ==> r.value as int == fs.contents[ResolvePath(fs.existing, a)]
  {
    var p := ResolvePath(fs.existing, a);
    if p !in fault && p in fs.contents && INT32_MIN <= fs.contents[p] <= INT32_MAX
    then Some(fs.contents[p] as int32)
    else None
  }

  /** `Utils.writeValue`: best effort, the file changes only if it is writable. */
  function WriteAt(fs: Fs, p: Path, v: int32): (r: Fs)
    ensures r.existing == fs.existing && r.writable == fs.writable
    ensures p in fs.writable ==> p in r.contents && r.contents[p] == v as int
    ensures p !in fs.writable ==> r == fs
  {
    if p in fs.writable then fs.(contents := fs.contents[p := v as int]) else fs
  }

  /** A write leaves every other file as it was. */
  lemma WriteAtFrame(fs: Fs, p: Path, v: int32, q: Path)
    requires q != p
    ensures q in WriteAt(fs, p, v).contents <==> q in fs.contents
    ensures q in fs.contents ==> WriteAt(fs, p, v).contents[q] == fs.contents[q]
  {
  }

  /** Java's unary minus on `int`: wraps `Integer.MIN_VALUE` onto itself. */
  function Neg32(x: int32): (r: int32)
    ensures (r as int + x as int) % 0x1_0000_0000 == 0
    ensures x as int != INT32_MIN ==> r as int == -(x as int)
  {
    if x as int == INT32_MIN then x else (-(x as int)) as int32
  }
}
