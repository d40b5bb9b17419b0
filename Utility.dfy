/**
 * The planner's utility layer: user options ("switches") persisted in the
 * browser's key/value storage, and the small translation tables the views use
 * (distribution names, year and quarter labels, prerequisite colours, the
 * text of an error alert).
 *
 * The browser storage is a value of type `Storage`, a map from key to stored
 * string; reading it is a parameter, writing it returns the new map.
 */
module Utility {
  import opened Wrappers

  // ---------------------------------------------------------------------------
  // User options and their persistence
  // ---------------------------------------------------------------------------

  /** The value of one user option: a boolean, a string, or `undefined`. */
  datatype OptionValue = Flag(b: bool) | Text(s: string) | Unset

  /** The browser's key/value storage. */
  type Storage = map<string, string>

  /** The in-memory option bag, keyed by option name. */
  type Switches = map<string, OptionValue>

  /** Every persisted option is stored under this prefix followed by its name. */
  const SwitchPrefix: string := "switch_"

  predicate IsSwitchKey(key: string) {
    |key| >= |SwitchPrefix| && key[..|SwitchPrefix|] == SwitchPrefix
  }

  /** The storage key of option `name`. */
  function SwitchKey(name: string): string {
    SwitchPrefix + name
  }

  /** The option name stored under a prefixed key: the key without its first 7 characters. */
  function SwitchId(key: string): string
    requires IsSwitchKey(key)
  {
    key[|SwitchPrefix|..]
  }

  lemma SwitchKeyRoundTrip(name: string)
    ensures IsSwitchKey(SwitchKey(name)) && SwitchId(SwitchKey(name)) == name
  {
    assert SwitchKey(name)[..|SwitchPrefix|] == SwitchPrefix;
  }

  lemma SwitchIdRoundTrip(key: string)
    requires IsSwitchKey(key)
    ensures SwitchKey(SwitchId(key)) == key
  {
    assert key == key[..|SwitchPrefix|] + key[|SwitchPrefix|..];
  }

  lemma SwitchKeyInjective(a: string, b: string)
    requires SwitchKey(a) == SwitchKey(b)
    ensures a == b
  {
    SwitchKeyRoundTrip(a);
    SwitchKeyRoundTrip(b);
  }

  /** The options every fresh load starts from, before stored values override them. */
  function Defaults(): (d: Switches)
    ensures d.Keys == {"save_to_storage", "notifications", "settings_tab"}
    ensures d["save_to_storage"] == Flag(true) && d["notifications"] == Flag(true)
    ensures d["settings_tab"] == Text("Appearance")
  {
    map["save_to_storage" := Flag(true), "notifications" := Flag(true), "settings_tab" := Text("Appearance")]
  }

  /** How a stored string is read back: the two boolean spellings become booleans, anything else stays a string. */
  function DecodeStored(stored: string): (v: OptionValue)
    ensures v == Flag(true) <==> stored == "true"
    ensures v == Flag(false) <==> stored == "false"
    ensures v.Text? <==> stored != "true" && stored != "false"
    ensures v.Text? ==> v.s == stored
  {
    if stored == "true" then Flag(true)
    else if stored == "false" then Flag(false)
    else Text(stored)
  }

  /** `val?.toString()`: the string an option value is saved as, or none for `undefined`. */
  function Stringify(v: OptionValue): (r: Option<string>)
    ensures r.None? <==> v.Unset?
  {
    match v
    case Flag(b) => Some(if b then "true" else "false")
    case Text(s) => Some(s)
    case Unset => None
  }

  /** Saving a value and reading it back gives the value again, except for the strings that spell a boolean. */
  lemma StoredValueRoundTrip(v: OptionValue)
    requires v.Flag? || (v.Text? && v.s != "" && v.s != "true" && v.s != "false")
    ensures Stringify(v).Some? && Stringify(v).value != ""
    ensures DecodeStored(Stringify(v).value) == v
  {
  }

  /** The option names visible after reading the keys in `seen`: the defaults and the prefixed keys read. */
  function OptionNames(store: Storage, seen: set<string>): (names: set<string>)
    ensures forall n :: n in names <==> n in Defaults() || (SwitchKey(n) in seen && SwitchKey(n) in store)
  {
    var read := set k | k in seen && k in store && IsSwitchKey(k) :: SwitchId(k);
    assert forall n :: n in read <==> SwitchKey(n) in seen && SwitchKey(n) in store by {
      forall n ensures n in read <==> SwitchKey(n) in seen && SwitchKey(n) in store {
        SwitchKeyRoundTrip(n);
        if n in read {
          var k :| k in seen && k in store && IsSwitchKey(k) && SwitchId(k) == n;
          SwitchIdRoundTrip(k);
        }
      }
    }
    Defaults().Keys + read
  }

  /**
   * The options after reading the storage keys in `seen`: an option whose
   * prefixed key was read takes the decoded stored value, any other option
   * keeps its default.
   */
  function OptionsFrom(store: Storage, seen: set<string>): (switches: Switches)
    ensures forall n :: n in switches <==> n in Defaults() || (SwitchKey(n) in seen && SwitchKey(n) in store)
    ensures forall n :: n in switches ==>
      switches[n] == if SwitchKey(n) in seen && SwitchKey(n) in store
                     then DecodeStored(store[SwitchKey(n)]) else Defaults()[n]
  {
    map n | n in OptionNames(store, seen) ::
      if SwitchKey(n) in seen && SwitchKey(n) in store then DecodeStored(store[SwitchKey(n)]) else Defaults()[n]
  }

  /** The options loaded from the whole storage. */
  function LoadedSwitches(store: Storage): (switches: Switches)
    ensures forall n :: n in switches <==> n in Defaults() || SwitchKey(n) in store
    ensures forall n :: n in switches ==>
      switches[n] == if SwitchKey(n) in store then DecodeStored(store[SwitchKey(n)]) else Defaults()[n]
  {
    OptionsFrom(store, store.Keys)
  }

  /** Reading one more storage key changes only the option that key names, if it is a prefixed key. */
  lemma OptionsFromStep(store: Storage, seen: set<string>, key: string)
    requires key in store
    ensures OptionsFrom(store, seen + {key}) ==
      if IsSwitchKey(key) then OptionsFrom(store, seen)[SwitchId(key) := DecodeStored(store[key])]
      else OptionsFrom(store, seen)
  {
    var before, after := OptionsFrom(store, seen), OptionsFrom(store, seen + {key});
    if IsSwitchKey(key) {
      var id := SwitchId(key);
      SwitchIdRoundTrip(key);
      forall n ensures n in after <==> n in before[id := DecodeStored(store[key])] {
        if n != id {
          SwitchKeyRoundTrip(n);
        }
      }
      forall n | n in after ensures after[n] == before[id := DecodeStored(store[key])][n] {
        if n != id {
          SwitchKeyRoundTrip(n);
        }
      }
    } else {
      forall n ensures n in after <==> n in before {
        SwitchKeyRoundTrip(n);
      }
      forall n | n in after ensures after[n] == before[n] {
        SwitchKeyRoundTrip(n);
      }
    }
  }

  /**
   * Reads the stored options: starting from the defaults, every key that
   * starts with the prefix sets the option named by the rest of the key to
   * its decoded stored value. Other keys are ignored.
   */
  method LoadSwitchesFromStorage(store: Storage) returns (switches: Switches)
    ensures switches == LoadedSwitches(store)
    ensures forall n :: n in switches <==> n in Defaults() || SwitchKey(n) in store
    ensures forall n :: n in switches ==>
      switches[n] == if SwitchKey(n) in store then DecodeStored(store[SwitchKey(n)]) else Defaults()[n]
  {
    switches := Defaults();
    var keys := store.Keys;
    ghost var seen: set<string> := {};
    assert switches == OptionsFrom(store, seen);
    while keys != {}
      invariant keys + seen == store.Keys && keys !! seen
      invariant switches == OptionsFrom(store, seen)
      decreases keys
    {
      var key :| key in keys;
      if IsSwitchKey(key) {
        var val := DecodeStored(store[key]);
        var switchId := SwitchId(key);
        switches := switches[switchId := val];
      }
      OptionsFromStep(store, seen, key);
      keys, seen := keys - {key}, seen + {key};
    }
  }

  /** An empty storage yields exactly the defaults. */
  lemma EmptyStorageGivesDefaults()
    ensures LoadedSwitches(map[]) == Defaults()
  {
    var loaded := LoadedSwitches(map[]);
    assert loaded.Keys == Defaults().Keys;
  }

  /**
   * Writes option `key` to storage: a non-empty string is stored under the
   * prefixed key, an empty or missing one removes that key. No other key changes.
   */
  function SaveSwitchToStorage(store: Storage, key: string, val: Option<string>): (r: Storage)
    ensures SwitchKey(key) in r <==> val.Some? && val.value != ""
    ensures SwitchKey(key) in r ==> r[SwitchKey(key)] == val.value
    ensures forall k :: k != SwitchKey(key) ==> (k in r <==> k in store)
    ensures forall k :: k != SwitchKey(key) && k in r ==> r[k] == store[k]
  {
    if val.Some? && val.value != "" then store[SwitchKey(key) := val.value]
    else store - {SwitchKey(key)}
  }

  /** Round trip: a saved non-empty value is what the next load yields for that option. */
  lemma SaveThenLoad(store: Storage, key: string, s: string)
    requires s != ""
    ensures key in LoadedSwitches(SaveSwitchToStorage(store, key, Some(s)))
    ensures LoadedSwitches(SaveSwitchToStorage(store, key, Some(s)))[key] == DecodeStored(s)
  {
  }

  /** After a removal the next load falls back to the default for that option, or omits it. */
  lemma RemoveThenLoad(store: Storage, key: string, val: Option<string>)
    requires val.None? || val == Some("")
    ensures key in LoadedSwitches(SaveSwitchToStorage(store, key, val)) <==> key in Defaults()
    ensures key in Defaults() ==> LoadedSwitches(SaveSwitchToStorage(store, key, val))[key] == Defaults()[key]
  {
  }

  /** Saving one option leaves what the next load yields for every other option as it was. */
  lemma SaveLeavesOtherOptions(store: Storage, key: string, val: Option<string>, other: string)
    requires other != key
    ensures other in LoadedSwitches(SaveSwitchToStorage(store, key, val)) <==> other in LoadedSwitches(store)
    ensures other in LoadedSwitches(store) ==>
      LoadedSwitches(SaveSwitchToStorage(store, key, val))[other] == LoadedSwitches(store)[other]
  {
    if SwitchKey(other) == SwitchKey(key) {
      SwitchKeyInjective(other, key);
    }
  }

  // ---------------------------------------------------------------------------
  // Distribution areas
  // ---------------------------------------------------------------------------

  /** `parseInt` of a one-character string: the decimal digit, or none (`NaN`) for anything else. */
  function ParseDigit(c: char): (d: Option<int>)
    ensures d.Some? <==> '0' <= c <= '9'
    ensures d.Some? ==> 0 <= d.value <= 9 && d.value == c as int - '0' as int
  {
    if '0' <= c <= '9' then Some(c as int - '0' as int) else None
  }

  /** The area name shown for one parsed distribution digit. */
  function DistroName(d: Option<int>): (name: string)
    ensures name == "Engenharia" <==> d.Some? && 1 <= d.value <= 7
    ensures name != "Engenharia" ==> name == "Indefinido"
  {
    match d
    case Some(n) => if 1 <= n <= 7 then "Engenharia" else "Indefinido"
    case None => "Indefinido"
  }

  /**
   * Translates a course's distribution string, one area name per character:
   * digits 1 to 7 name the engineering area, every other character is
   * undefined. A missing or empty string gives no names.
   */
  method ConvertDistros(distros: Option<string>) returns (strings: seq<string>)
    ensures distros.None? || distros == Some("") ==> strings == []
    ensures distros.Some? ==> |strings| == |distros.value|
    ensures distros.Some? ==> forall i :: 0 <= i < |strings| ==>
      strings[i] == if '1' <= distros.value[i] <= '7' then "Engenharia" else "Indefinido"
  {
    strings := [];
    if distros.None? || distros.value == "" {
      return;
    }
    var s := distros.value;
    var i := 0;
    while i < |s|
      invariant 0 <= i <= |s|
      invariant |strings| == i
      invariant forall j :: 0 <= j < i ==> strings[j] == if '1' <= s[j] <= '7' then "Engenharia" else "Indefinido"
    {
      var d := ParseDigit(s[i]);
      strings := strings + [DistroName(d)];
      i := i + 1;
    }
  }

  // ---------------------------------------------------------------------------
  // Splitting on a separator and distribution acronyms
  // ---------------------------------------------------------------------------

  /** JavaScript's `join`: the parts with one separator between neighbours. */
  function Join(parts: seq<string>, sep: char): string {
    if parts == [] then ""
    else if |parts| == 1 then parts[0]
    else parts[0] + [sep] + Join(parts[1..], sep)
  }

  /**
   * JavaScript's `split` on a one-character separator: the maximal pieces
   * between separators, empty pieces included, so there is always at least one.
   */
  function Split(s: string, sep: char): (parts: seq<string>)
    ensures |parts| >= 1
    ensures forall i :: 0 <= i < |parts| ==> sep !in parts[i]
    ensures Join(parts, sep) == s
    decreases |s|
  {
    if s == [] then [""]
    else
      var rest := Split(s[1..], sep);
      if s[0] == sep then
        assert Join([""] + rest, sep) == [sep] + Join(rest, sep) by {
          assert ([""] + rest)[1..] == rest;
        }
        assert s == [s[0]] + s[1..];
        [""] + rest
      else
        var parts := [[s[0]] + rest[0]] + rest[1..];
        assert Join(parts, sep) == [s[0]] + Join(rest, sep) by {
          assert parts[1..] == rest[1..];
        }
        assert s == [s[0]] + s[1..];
        parts
  }

  /** What `acronym += d[0]` appends for one word: its first character, or "undefined" for an empty word. */
  function Initial(word: string): (init: string)
    ensures word == "" <==> init == "undefined"
    ensures word != "" ==> |init| == 1 && init[0] == word[0]
  {
    if word == "" then "undefined" else [word[0]]
  }

  /** The concatenation of the initials of `words`, left to right. */
  function Initials(words: seq<string>): string {
    if words == [] then "" else Initials(words[..|words| - 1]) + Initial(words[|words| - 1])
  }

  /** With no empty word, the acronym has one character per word: that word's first character. */
  lemma {:induction false} InitialsOfNonEmptyWords(words: seq<string>)
    requires forall i :: 0 <= i < |words| ==> words[i] != ""
    ensures |Initials(words)| == |words|
    ensures forall i :: 0 <= i < |words| ==> Initials(words)[i] == words[i][0]
  {
    if words != [] {
      var front := words[..|words| - 1];
      InitialsOfNonEmptyWords(front);
    }
  }

  /**
   * The acronym of a distribution string: the first character of each
   * space-separated word. As written, an empty word (from a leading,
   * trailing or doubled space, or an empty string) contributes the text
   * "undefined".
   */
  method GetDistroAcronym(distroString: string) returns (acronym: string)
    ensures acronym == Initials(Split(distroString, ' '))
    ensures var words := Split(distroString, ' ');
      (forall i :: 0 <= i < |words| ==> words[i] != "") ==>
        |acronym| == |words| && forall i :: 0 <= i < |words| ==> acronym[i] == words[i][0]
  {
    var distro := Split(distroString, ' ');
    acronym := "";
    var i := 0;
    while i < |distro|
      invariant 0 <= i <= |distro|
      invariant acronym == Initials(distro[..i])
    {
      assert distro[..i + 1][..i] == distro[..i];
      acronym := acronym + Initial(distro[i]);
      i := i + 1;
    }
    assert distro[..i] == distro;
    if forall i :: 0 <= i < |distro| ==> distro[i] != "" {
      InitialsOfNonEmptyWords(distro);
    }
  }

  /** The string that shows the defect: an empty distribution string yields the text "undefined". */
  lemma AcronymOfEmptyString()
    ensures Initials(Split("", ' ')) == "undefined"
  {
    assert Split("", ' ') == [""];
    assert Initials([""]) == Initials([]) + Initial("");
  }

  /** The initials of the non-empty words only, left to right. */
  function NonEmptyInitials(words: seq<string>): string {
    if words == [] then ""
    else
      var last := words[|words| - 1];
      NonEmptyInitials(words[..|words| - 1]) + if last == "" then "" else [last[0]]
  }

  /** The number of non-empty words. */
  function NonEmptyCount(words: seq<string>): nat {
    if words == [] then 0
    else NonEmptyCount(words[..|words| - 1]) + (if words[|words| - 1] == "" then 0 else 1)
  }

  /**
   * The acronym as evidently intended: one character per non-empty word,
   * each a character of the input other than the separator; where no word is
   * empty it agrees with the acronym as written.
   */
  function {:induction false} AcronymOfWords(words: seq<string>): (acronym: string)
    requires forall i :: 0 <= i < |words| ==> ' ' !in words[i]
    ensures acronym == NonEmptyInitials(words)
    ensures |acronym| == NonEmptyCount(words)
    ensures forall i :: 0 <= i < |acronym| ==> acronym[i] != ' '
    ensures forall i :: 0 <= i < |acronym| ==> exists j :: 0 <= j < |words| && words[j] != "" && acronym[i] == words[j][0]
    ensures (forall i :: 0 <= i < |words| ==> words[i] != "") ==> acronym == Initials(words)
  {
    if words == [] then ""
    else
      var front := words[..|words| - 1];
      var last := words[|words| - 1];
      var r := AcronymOfWords(front);
      assert forall j :: 0 <= j < |front| ==> front[j] == words[j];
      r + (if last == "" then "" else [last[0]])
  }

  /** The corrected acronym of a distribution string: empty words contribute nothing. */
  function DistroAcronym(distroString: string): (acronym: string)
    ensures |acronym| == NonEmptyCount(Split(distroString, ' '))
    ensures forall i :: 0 <= i < |acronym| ==> acronym[i] in distroString && acronym[i] != ' '
    ensures var words := Split(distroString, ' ');
      (forall i :: 0 <= i < |words| ==> words[i] != "") ==> acronym == Initials(words)
  {
    var words := Split(distroString, ' ');
    AcronymCharsOccur(words);
    AcronymOfWords(words)
  }

  /** Every character of the corrected acronym occurs in the string the words were split from. */
  lemma AcronymCharsOccur(words: seq<string>)
    requires forall i :: 0 <= i < |words| ==> ' ' !in words[i]
    ensures forall i :: 0 <= i < |AcronymOfWords(words)| ==> AcronymOfWords(words)[i] in Join(words, ' ')
  {
    var acronym := AcronymOfWords(words);
    forall i | 0 <= i < |acronym| ensures acronym[i] in Join(words, ' ') {
      var j :| 0 <= j < |words| && words[j] != "" && acronym[i] == words[j][0];
      WordCharInJoin(words, ' ', words[j]);
    }
  }

  /** The first character of a non-empty piece occurs in the joined string. */
  lemma {:induction false} WordCharInJoin(parts: seq<string>, sep: char, w: string)
    requires w in parts && w != ""
    ensures w[0] in Join(parts, sep)
  {
    if |parts| == 1 {
    } else if parts[0] == w {
      assert Join(parts, sep)[0] == w[0];
    } else {
      WordCharInJoin(parts[1..], sep, w);
      var tail := Join(parts[1..], sep);
      assert Join(parts, sep) == parts[0] + [sep] + tail;
      var k :| 0 <= k < |tail| && tail[k] == w[0];
      assert Join(parts, sep)[|parts[0]| + 1 + k] == w[0];
    }
  }

  // ---------------------------------------------------------------------------
  // Labels and colours
  // ---------------------------------------------------------------------------

  /** The colour names the views use. */
  datatype Color = Lime | Sky | Orange | Yellow | Green | Blue | Purple | Gray

  /** The label shown for a year index past the tenth. */
  const YearFallback: string := "AAH MUITOS ANOS NÃOOO"

  predicate IsDecimal(s: string) {
    s != [] && forall i :: 0 <= i < |s| ==> '0' <= s[i] <= '9'
  }

  /** The number a string of decimal digits denotes. */
  function DecimalValue(s: string): int
    requires forall i :: 0 <= i < |s| ==> '0' <= s[i] <= '9'
  {
    if s == [] then 0 else DecimalValue(s[..|s| - 1]) * 10 + (s[|s| - 1] as int - '0' as int)
  }

  /** The value of a four-digit string, digit by digit. */
  lemma FourDigits(s: string)
    requires |s| == 4 && forall i :: 0 <= i < 4 ==> '0' <= s[i] <= '9'
    ensures DecimalValue(s) ==
      ((s[0] as int - '0' as int) * 1000) + ((s[1] as int - '0' as int) * 100)
      + ((s[2] as int - '0' as int) * 10) + (s[3] as int - '0' as int)
  {
    var one, two, three := s[..1], s[..2], s[..3];
    assert one[..0] == [] && two[..1] == one && three[..2] == two;
    assert DecimalValue(one) == s[0] as int - '0' as int;
    assert DecimalValue(two) == DecimalValue(one) * 10 + (s[1] as int - '0' as int);
    assert DecimalValue(three) == DecimalValue(two) * 10 + (s[2] as int - '0' as int);
  }

  /**
   * The calendar year shown for year index `num`: the ten indices 0 to 9 are
   * the years 2023 to 2032, written as four decimal digits; every other index
   * shows one fixed fallback text, which is not a number.
   */
  function ConvertYear(num: int): (caption: string)
    ensures IsDecimal(caption) <==> 0 <= num <= 9
    ensures 0 <= num <= 9 ==> |caption| == 4 && DecimalValue(caption) == 2023 + num
    ensures !(0 <= num <= 9) ==> caption == YearFallback
  {
    var caption := match num
      case 0 => "2023"
      case 1 => "2024"
      case 2 => "2025"
      case 3 => "2026"
      case 4 => "2027"
      case 5 => "2028"
      case 6 => "2029"
      case 7 => "2030"
      case 8 => "2031"
      case 9 => "2032"
      case _ => YearFallback;
    assert !IsDecimal(YearFallback) by { assert YearFallback[0] == 'A'; }
    if 0 <= num <= 9 then FourDigits(caption); caption else caption
  }

  /** Distinct year indices in range have distinct labels, and none of them is the fallback. */
  lemma ConvertYearInjective(a: int, b: int)
    requires 0 <= a <= 9 && a != b
    ensures ConvertYear(a) != ConvertYear(b)
  {
  }

  /** The heading of a quarter column: its title and colour. */
  datatype QuarterLabel = QuarterLabel(title: string, color: Color)

  /**
   * The heading of quarter index `num`: quarters 0 to 3 are titled with their
   * one-based ordinal ("1º PERIODO" to "4º PERIODO"), each in its own colour
   * other than gray; every other index is the gray fallback "LOL WHAT??".
   */
  function ConvertQuarter(num: int): (r: QuarterLabel)
    ensures 0 <= num <= 3 ==> r.title == [('1' as int + num) as char] + "º PERIODO"
    ensures r.color == Gray <==> !(0 <= num <= 3)
    ensures !(0 <= num <= 3) ==> r.title == "LOL WHAT??"
  {
    match num
    case 0 => QuarterLabel("1º PERIODO", Lime)
    case 1 => QuarterLabel("2º PERIODO", Sky)
    case 2 => QuarterLabel("3º PERIODO", Orange)
    case 3 => QuarterLabel("4º PERIODO", Yellow)
    case _ => QuarterLabel("LOL WHAT??", Gray)
  }

  /** Distinct quarters in range get distinct titles and distinct colours. */
  lemma ConvertQuarterInjective(a: int, b: int)
    requires 0 <= a <= 3 && 0 <= b <= 3 && a != b
    ensures ConvertQuarter(a).title != ConvertQuarter(b).title
    ensures ConvertQuarter(a).color != ConvertQuarter(b).color
  {
    assert ConvertQuarter(a).title[0] != ConvertQuarter(b).title[0];
  }

  /**
   * The colour of a prerequisite group by its index: the five groups 0 to 4
   * have fixed colours other than gray; every other index is gray.
   */
  function PrereqColor(num: int): (c: Color)
    ensures c == Gray <==> !(0 <= num <= 4)
  {
    match num
    case 0 => Green
    case 1 => Blue
    case 2 => Orange
    case 3 => Yellow
    case 4 => Purple
    case _ => Gray
  }

  /** The five prerequisite groups have five different colours. */
  lemma PrereqColorInjective(a: int, b: int)
    requires 0 <= a <= 4 && 0 <= b <= 4 && a != b
    ensures PrereqColor(a) != PrereqColor(b)
  {
  }

  // ---------------------------------------------------------------------------
  // Error alerts
  // ---------------------------------------------------------------------------

  /**
   * The diagnostic text of an error alert: the error message, the separator
   * " - ", then the operation it came from. Both parts can be read back from
   * the text.
   */
  function ErrorTextView(from: string, error: string): (text: string)
    ensures |text| == |error| + 3 + |from|
    ensures text[..|error|] == error && text[|error|..|error| + 3] == " - " && text[|error| + 3..] == from
  {
    error + " - " + from
  }
}
