/**
 * The static helpers of the attendance backend: the clock-in classifier
 * (`toMinutes`, `getStatus`), the registration duplicate check
 * (`isDuplicate`), the null-stripping of response objects (`cleanJSON`) and
 * the random identifier generator (`generateID`) the token codec uses.
 */
module Helper {
  import opened Js

  // ---------------------------------------------------------------------
  // toMinutes

  /**
   * `toMinutes("h:m")`: the text before the first ':' read as hours, the text
   * after it (up to a second ':') read as minutes, and `h * 60 + m`; a part
   * that does not read as a number, or a missing minutes part, gives NaN.
   */
  function ToMinutes(time: string): (r: Number)
    ensures ':' !in time ==> r == NaN
  {
    var parts := Split(time, ':');
    var h := ParseNumber(parts[0]);
    var m := if |parts| >= 2 then ParseNumber(parts[1]) else NaN;
    Add(Mul(h, Finite(60)), m)
  }

  /** A well-formed "h:m" of decimal digits is `60 * h + m` minutes after midnight. */
  lemma ToMinutesWellFormed(hours: string, minutes: string)
    requires |hours| >= 1 && AllDigits(hours)
    requires |minutes| >= 1 && AllDigits(minutes)
    ensures ToMinutes(hours + ":" + minutes) == Finite(60 * DigitsValue(hours) + DigitsValue(minutes))
  {
    NoColon(hours);
    NoColon(minutes);
    ToMinutesOfParts(hours, minutes);
    ClockMinutes(DigitsValue(hours), DigitsValue(minutes));
  }

  /** `h * 60 + m` on finite numbers. */
  lemma ClockMinutes(h: nat, m: nat)
    ensures Add(Mul(Finite(h), Finite(60)), Finite(m)) == Finite(60 * h + m)
  {
  }

  lemma NoColon(s: string)
    requires AllDigits(s)
    ensures ':' !in s
  {
  }

  /** `toMinutes` of two colon-free parts joined by ':' reads each part as a number. */
  lemma ToMinutesOfParts(hours: string, minutes: string)
    requires ':' !in hours && ':' !in minutes
    ensures ToMinutes(hours + ":" + minutes) == Add(Mul(ParseNumber(hours), Finite(60)), ParseNumber(minutes))
  {
    SplitTwo(hours, minutes, ':');
    assert hours + ":" + minutes == hours + [':'] + minutes;
  }

  /** The clock text of `h` hours and `m` minutes reads back as `60 * h + m`. */
  lemma ToMinutesOfClock(h: nat, m: nat)
    ensures ToMinutes(NatToDigits(h) + ":" + NatToDigits(m)) == Finite(60 * h + m)
  {
    ToMinutesWellFormed(NatToDigits(h), NatToDigits(m));
  }

  // ---------------------------------------------------------------------
  // getStatus

  /** The four presence labels. */
  datatype Status = Masuk | Terlambat | Lembur | DiLuarJamKerja

  function Label(s: Status): string {
    match s
    case Masuk => "masuk"
    case Terlambat => "terlambat"
    case Lembur => "lembur"
    case DiLuarJamKerja => "di luar jam kerja"
  }

  const Labels: set<string> := {"masuk", "terlambat", "lembur", "di luar jam kerja"}

  /** Length of the late window after the start time, in minutes. */
  const LateWindow := 60
  /** Length of the overtime window after the end time, in minutes (9 hours). */
  const OvertimeWindow := 9 * 60

  /**
   * The if-chain of `getStatus` on minute values, first match wins; every
   * comparison with NaN is false, so an unreadable clock-in time falls through
   * to `DiLuarJamKerja`.
   */
  function Classify(menit: Number, masuk: Number, keluar: Number): (r: Status)
    ensures menit.NaN? ==> r == DiLuarJamKerja
    ensures menit.Finite? && masuk.Finite? && keluar.Finite? ==>
      var t, start, end := menit.value, masuk.value, keluar.value;
      && (r == Masuk <==> t < start)
      && (r == Terlambat <==> start <= t <= start + LateWindow)
      && (r == Lembur <==> start + LateWindow < t && end <= t <= end + OvertimeWindow)
      && (r == DiLuarJamKerja <==> start + LateWindow < t && !(end <= t <= end + OvertimeWindow))
  {
    var terlambat := Add(masuk, Finite(LateWindow));
    var lemburAkhir := Add(keluar, Finite(OvertimeWindow));
    if Less(menit, masuk) then Masuk
    else if AtMost(masuk, menit) && AtMost(menit, terlambat) then Terlambat
    else if AtMost(keluar, menit) && AtMost(menit, lemburAkhir) then Lembur
    else DiLuarJamKerja
  }

  /** `getStatus(time, jamMasuk, jamKeluar)`: the label of the clock-in time. */
  function GetStatus(time: string, jamMasuk: string, jamKeluar: string): (r: string)
    ensures r in Labels
  {
    var c := Classify(ToMinutes(time), ToMinutes(jamMasuk), ToMinutes(jamKeluar));
    LabelIsLabel(c);
    Label(c)
  }

  lemma LabelIsLabel(s: Status)
    ensures Label(s) in Labels
  {
  }

  /**
   * Once the three texts read as minute values, the label depends only on
   * them: before the start is `masuk`, up to an hour after it `terlambat`,
   * from the end up to nine hours later `lembur`, anything else (including
   * the working day in between) `di luar jam kerja`.
   */
  lemma GetStatusOfMinutes(time: string, jamMasuk: string, jamKeluar: string, t: int, start: int, end: int)
    requires ToMinutes(time) == Finite(t)
    requires ToMinutes(jamMasuk) == Finite(start)
    requires ToMinutes(jamKeluar) == Finite(end)
    ensures
      var r := GetStatus(time, jamMasuk, jamKeluar);
      && (r == "masuk" <==> t < start)
      && (r == "terlambat" <==> start <= t <= start + 60)
      && (r == "lembur" <==> start + 60 < t && end <= t <= end + 540)
      && (r == "di luar jam kerja" <==> start + 60 < t && !(end <= t <= end + 540))
  {
    var c := Classify(Finite(t), Finite(start), Finite(end));
    assert GetStatus(time, jamMasuk, jamKeluar) == Label(c);
  }

  /** A clock-in time that is not "h:m" is never on time, late or overtime. */
  lemma GetStatusUnreadableTime(time: string, jamMasuk: string, jamKeluar: string)
    requires ':' !in time
    ensures GetStatus(time, jamMasuk, jamKeluar) == "di luar jam kerja"
  {
  }

  lemma TwoDigits(a: char, b: char)
    requires IsDigit(a) && IsDigit(b)
    ensures DigitsValue([a, b]) == 10 * DigitValue(a) + DigitValue(b)
  {
    assert [a, b][..1] == [a];
    assert [a][..0] == [];
    assert DigitsValue([a]) == DigitValue(a);
  }

  /** `ToMinutes` of a literal "HH:MM" of two-digit parts. */
  lemma ToMinutesLiteral(time: string, h1: char, h2: char, m1: char, m2: char)
    requires IsDigit(h1) && IsDigit(h2) && IsDigit(m1) && IsDigit(m2)
    requires time == [h1, h2, ':', m1, m2]
    ensures ToMinutes(time) == Finite(60 * (10 * DigitValue(h1) + DigitValue(h2))
                                      + 10 * DigitValue(m1) + DigitValue(m2))
  {
    TwoDigits(h1, h2);
    TwoDigits(m1, m2);
    ToMinutesWellFormed([h1, h2], [m1, m2]);
    assert time == [h1, h2] + ":" + [m1, m2];
  }

  // The minute values of the sample texts, one literal per lemma.

  lemma ClockNine()
    ensures ToMinutes("09:00") == Finite(540)
  {
    ToMinutesLiteral("09:00", '0', '9', '0', '0');
  }

  lemma ClockSeventeen()
    ensures ToMinutes("17:00") == Finite(1020)
  {
    ToMinutesLiteral("17:00", '1', '7', '0', '0');
  }

  lemma ClockTwo()
    ensures ToMinutes("02:00") == Finite(120)
  {
    ToMinutesLiteral("02:00", '0', '2', '0', '0');
  }

  lemma ClockEightFiftyNine()
    ensures ToMinutes("08:59") == Finite(539)
  {
    ToMinutesLiteral("08:59", '0', '8', '5', '9');
  }

  lemma ClockTen()
    ensures ToMinutes("10:00") == Finite(600)
  {
    ToMinutesLiteral("10:00", '1', '0', '0', '0');
  }

  lemma ClockTenOhOne()
    ensures ToMinutes("10:01") == Finite(601)
  {
    ToMinutesLiteral("10:01", '1', '0', '0', '1');
  }

  /**
   * Sample clock-ins against a 09:00-17:00 window: both ends of the late
   * hour are late, the working day after it is outside working hours, the
   * end time is overtime, and 02:00 is before the start, where the first
   * branch wins, so it is `masuk` rather than overtime of the previous day.
   */
  lemma GetStatusSamples()
    ensures GetStatus("08:59", "09:00", "17:00") == "masuk"
    ensures GetStatus("09:00", "09:00", "17:00") == "terlambat"
    ensures GetStatus("10:00", "09:00", "17:00") == "terlambat"
    ensures GetStatus("10:01", "09:00", "17:00") == "di luar jam kerja"
    ensures GetStatus("17:00", "09:00", "17:00") == "lembur"
    ensures GetStatus("02:00", "09:00", "17:00") == "masuk"
  {
    ClockNine();
    ClockSeventeen();
    ClockTwo();
    ClockEightFiftyNine();
    ClockTen();
    ClockTenOhOne();
    GetStatusOfMinutes("08:59", "09:00", "17:00", 539, 540, 1020);
    GetStatusOfMinutes("09:00", "09:00", "17:00", 540, 540, 1020);
    GetStatusOfMinutes("10:00", "09:00", "17:00", 600, 540, 1020);
    GetStatusOfMinutes("10:01", "09:00", "17:00", 601, 540, 1020);
    GetStatusOfMinutes("17:00", "09:00", "17:00", 1020, 540, 1020);
    GetStatusOfMinutes("02:00", "09:00", "17:00", 120, 540, 1020);
  }

  // ---------------------------------------------------------------------
  // isDuplicate

  /** Which field identifies a registration: the explicit id or the name. */
  datatype Ident = ById | ByNama

  /** The stored account body `{user_id, nama, jabatan, absent}` (absences left out). */
  datatype Account = Account(userId: string, nama: string, jabatan: string)

  /** One entry of the account listing: the key's id and the parsed account. */
  datatype UserData = UserData(userId: string, data: Account)

  /** `String(x)` of a nullable string. */
  function StringOf(x: Option<string>): string {
    if x.Some? then x.value else "null"
  }

  /**
   * `s.toLowerCase().trim()`: the lowercased text with only white space
   * cut from around it, no longer than the text, and with no ASCII capital
   * left.
   */
  function Normalize(s: string): (r: string)
    ensures exists i :: TrimmedAt(Lower(s), r, i)
    ensures |r| <= |s|
    ensures NoCapitals(r)
  {
    var l := Lower(s);
    TrimKeepsNoCapitals(l);
    Trim(l)
  }

  /** The compared form has no white space at either end. */
  lemma NormalizeEnds(s: string)
    ensures var r := Normalize(s);
      r == [] || (!IsJsSpace(r[0]) && !IsJsSpace(r[|r| - 1]))
  {
    var r := Trim(Lower(s));
    assert r == [] || (!IsJsSpace(r[0]) && !IsJsSpace(r[|r| - 1]));
  }

  /**
   * Case and surrounding white space do not change the compared form:
   * `a + x + b` normalizes like `s` when `x` lowercases like `s` and `a`
   * and `b` are white space.
   */
  lemma NormalizeIgnoresCaseAndPadding(a: string, x: string, b: string, s: string)
    requires AllJsSpace(a) && AllJsSpace(b)
    requires Lower(x) == Lower(s)
    ensures Normalize(a + x + b) == Normalize(s)
  {
    LowerPadded(a, x, b);
    TrimPadded(a, Lower(s), b);
  }

  /** Lowercasing leaves white space around a text as it is. */
  lemma LowerPadded(a: string, x: string, b: string)
    requires AllJsSpace(a) && AllJsSpace(b)
    ensures Lower(a + x + b) == a + Lower(x) + b
  {
    LowerAppend(a, x);
    LowerAppend(a + x, b);
    LowerKeepsSpace(a);
    LowerKeepsSpace(b);
  }

  /** Lowercasing works character by character, so it distributes over `+`. */
  lemma LowerAppend(u: string, v: string)
    ensures Lower(u + v) == Lower(u) + Lower(v)
  {
    var l, r := Lower(u + v), Lower(u) + Lower(v);
    forall k | 0 <= k < |l|
      ensures l[k] == r[k]
    {
      if k < |u| {
        assert (u + v)[k] == u[k];
      } else {
        assert (u + v)[k] == v[k - |u|];
      }
    }
  }

  /** White space has no capitals, so lowercasing keeps it. */
  lemma LowerKeepsSpace(w: string)
    requires AllJsSpace(w)
    ensures Lower(w) == w
  {
    assert forall k :: 0 <= k < |w| ==> LowerChar(w[k]) == w[k];
  }

  /** Trimming a text without ASCII capitals leaves none. */
  lemma TrimKeepsNoCapitals(l: string)
    requires NoCapitals(l)
    ensures NoCapitals(Trim(l))
  {
    var r := Trim(l);
    var i: nat :| TrimmedAt(l, r, i);
    SliceHasNoCapitals(l, r, i);
  }

  /** A slice of a text without ASCII capitals has none either. */
  lemma SliceHasNoCapitals(l: string, r: string, i: nat)
    requires TrimmedAt(l, r, i) && NoCapitals(l)
    ensures NoCapitals(r)
  {
    assert forall k :: 0 <= k < |r| ==> r[k] == l[i + k];
  }

  /** The callback given to `some` in each mode. */
  predicate Matches(kind: Ident, nama: Option<string>, id: Option<string>, jabatan: string, item: UserData) {
    match kind
    case ByNama =>
      Normalize(item.data.nama) == Normalize(StringOf(nama))
      && Normalize(item.data.jabatan) == Normalize(jabatan)
    case ById =>
      Normalize(item.userId) == Normalize(StringOf(id))
  }

  /**
   * `isDuplicate(type, nama, id, jabatan, data)`: no listing means no
   * duplicate; otherwise some entry matches after lowercasing and trimming.
   */
  function IsDuplicate(kind: Ident, nama: Option<string>, id: Option<string>, jabatan: string,
                       data: Option<seq<UserData>>): (r: bool)
    ensures data.None? ==> !r
    ensures data.Some? && kind == ByNama ==>
      (r <==> exists i :: 0 <= i < |data.value|
                && Normalize(data.value[i].data.nama) == Normalize(StringOf(nama))
                && Normalize(data.value[i].data.jabatan) == Normalize(jabatan))
    ensures data.Some? && kind == ById ==>
      (r <==> exists i :: 0 <= i < |data.value| && Normalize(data.value[i].userId) == Normalize(StringOf(id)))
  {
    if data.None? then false else AnyOf(item => Matches(kind, nama, id, jabatan, item), data.value)
  }

  /** In id mode the role and the name play no part. */
  lemma IdModeIgnoresNameAndRole(nama1: Option<string>, nama2: Option<string>, id: Option<string>,
                                 jabatan1: string, jabatan2: string, data: Option<seq<UserData>>)
    ensures IsDuplicate(ById, nama1, id, jabatan1, data) == IsDuplicate(ById, nama2, id, jabatan2, data)
  {
  }

  /**
   * An account already listed under a name and role is found again when the
   * query differs from the listing only in case and surrounding white space.
   */
  lemma ListedNameIsDuplicate(data: seq<UserData>, i: nat, a1: string, x: string, b1: string,
                              a2: string, y: string, b2: string)
    requires i < |data|
    requires AllJsSpace(a1) && AllJsSpace(b1) && AllJsSpace(a2) && AllJsSpace(b2)
    requires Lower(x) == Lower(data[i].data.nama)
    requires Lower(y) == Lower(data[i].data.jabatan)
    ensures IsDuplicate(ByNama, Some(a1 + x + b1), None, a2 + y + b2, Some(data))
  {
    NormalizeIgnoresCaseAndPadding(a1, x, b1, data[i].data.nama);
    NormalizeIgnoresCaseAndPadding(a2, y, b2, data[i].data.jabatan);
  }

  // ---------------------------------------------------------------------
  // cleanJSON

  /** A property value of a response object (nested objects are opaque text here). */
  datatype Value = Undefined | Null | Bool(b: bool) | Num(n: Number) | Text(s: string)

  predicate Present(v: Value) {
    v != Undefined && v != Null
  }

  /**
   * `cleanJSON(data)`: the entries of `data`, in order, without those whose
   * value is null or undefined; `false`, 0 and "" are kept.
   */
  function CleanJSON(data: seq<(string, Value)>): (r: seq<(string, Value)>)
    ensures forall e :: e in r <==> e in data && Present(e.1)
    ensures |r| <= |data|
    decreases |data|
  {
    if data == [] then []
    else
      var rest := CleanJSON(data[1..]);
      assert forall e :: e in data <==> e == data[0] || e in data[1..];
      if Present(data[0].1) then [data[0]] + rest else rest
  }

  /** Cleaning twice is cleaning once. */
  lemma {:induction false} CleanJSONIdempotent(data: seq<(string, Value)>)
    ensures CleanJSON(CleanJSON(data)) == CleanJSON(data)
    decreases |data|
  {
    if data != [] {
      CleanJSONIdempotent(data[1..]);
      if Present(data[0].1) {
        var c := CleanJSON(data);
        assert c[1..] == CleanJSON(data[1..]);
      }
    }
  }

  /** An object with no null or undefined value is unchanged. */
  lemma {:induction false} CleanJSONKeepsPresent(data: seq<(string, Value)>)
    requires forall i :: 0 <= i < |data| ==> Present(data[i].1)
    ensures CleanJSON(data) == data
    decreases |data|
  {
    if data != [] {
      CleanJSONKeepsPresent(data[1..]);
    }
  }

  // ---------------------------------------------------------------------
  // generateID

  /** The two alphabets of `generateID`. */
  datatype IdType = Alphanumeric | Numeric

  const AlphanumericChars := "abcdefghijklmnopqrstuvwxyzABCDEFGHIJKLMNOPQRSTUVWXYZ0123456789"
  const NumericChars := "0123456789"

  /** The alphabet for `type`; anything but 'alphanumeric' (or none) means digits. */
  function Characters(kind: Option<IdType>): (chars: string)
    ensures |chars| == if kind == Some(Alphanumeric) then 62 else 10
  {
    if kind == Some(Alphanumeric) then AlphanumericChars else NumericChars
  }

  /** A draw of `Math.random()`, in [0, 1). */
  predicate IsDraw(r: real) {
    0.0 <= r < 1.0
  }

  /** `characters.charAt(Math.floor(r * characters.length))`. */
  function Pick(chars: string, r: real): (c: char)
    requires |chars| > 0 && IsDraw(r)
    ensures c in chars
  {
    var n := |chars| as real;
    assert r * n < n by {
      assert (1.0 - r) * n > 0.0;
    }
    chars[(r * n).Floor]
  }

  /** The identifier `generateID` builds from the given draws, one character per draw. */
  function IdFromDraws(chars: string, draws: seq<real>): (id: string)
    requires |chars| > 0
    requires forall i :: 0 <= i < |draws| ==> IsDraw(draws[i])
    ensures |id| == |draws|
  {
    seq(|draws|, i requires 0 <= i < |draws| => Pick(chars, draws[i]))
  }

  /**
   * `generateID(length, type)`: `length` characters of the chosen alphabet,
   * the i-th picked by the i-th value of `Math.random()`, given here as `draws`.
   */
  method GenerateId(length: nat, kind: Option<IdType>, draws: seq<real>) returns (id: string)
    requires |draws| >= length
    requires forall i :: 0 <= i < |draws| ==> IsDraw(draws[i])
    ensures id == IdFromDraws(Characters(kind), draws[..length])
    ensures |id| == length
    ensures forall i :: 0 <= i < |id| ==> id[i] in Characters(kind)
  {
    var characters := Characters(kind);
    id := "";
    for i := 0 to length
      invariant id == IdFromDraws(characters, draws[..i])
      invariant forall k :: 0 <= k < |id| ==> id[k] in characters
    {
      id := id + [Pick(characters, draws[i])];
    }
  }
}
