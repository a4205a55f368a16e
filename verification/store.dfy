/**
 The record store of App.js: the screen's input state, the history of
 conversions and the favourites list, and the handlers that change them. Each
 handler is a function from the state before the event to the state after it.
 */
module Store {
  import opened Wrappers
  import opened Text
  import opened Converter

  /** Record ids are `Math.random()` values that are only ever compared with `===`. */
  type Id = int

  datatype ColorRecord = ColorRecord(id: Id, hex: string, rgb: string, hsl: string, isFavorite: bool)

  /** The text of one RGB box as `validateValue` sees it: empty, not a number
      (`isNaN` holds), or a number whose `parseInt` value is n. */
  datatype Field = Empty | NonNumeric | Numeric(n: int)

  /** What `deleteFromFavorites` is handed: a record id, or a hex string, which
      is what the favourites list actually passes it. */
  datatype Key = ById(id: Id) | ByHex(hex: string)

  /** The component state. An unset RGB box (the empty string) is None; a set
      one holds the clamped number it shows. */
  datatype State = State(
    hexColor: string,
    rgbColor: string,
    hslColor: string,
    rValue: Option<int>,
    gValue: Option<int>,
    bValue: Option<int>,
    error: string,
    history: seq<ColorRecord>,
    favorites: seq<ColorRecord>)

  const HexError: string := "Please enter a valid hex color (e.g. #FFFFFF)"

  /** What `Math.round` and the template literal produce for an HSL made of NaN. */
  const NaNHsl: string := "hsl(NaN, NaN%, NaN%)"

  /** The state before anything is loaded or typed. */
  const Initial: State := State("#", "", "", None, None, None, "", [], [])

  // ---------------------------------------------------------------------------
  // Invariants

  function Ids(s: seq<ColorRecord>): set<Id> {
    set x | x in s :: x.id
  }

  predicate UniqueIds(s: seq<ColorRecord>) {
    forall i, j :: 0 <= i < j < |s| ==> s[i].id != s[j].id
  }

  predicate SameColor(a: ColorRecord, b: ColorRecord) {
    a.hex == b.hex && a.rgb == b.rgb && a.hsl == b.hsl
  }

  /** A record the converter could have produced: a valid hex with the RGB text
      and the HSL text derived from it. */
  predicate ValidRecord(x: ColorRecord) {
    && IsHexColor(x.hex)
    && x.rgb == RgbText(HexToRgb(x.hex).rgb)
    && x.hsl == HexToHsl(x.hex)
  }

  predicate ChannelOk(c: Option<int>) {
    c.None? || IsByte(c.value)
  }

  predicate ChannelsOk(st: State) {
    ChannelOk(st.rValue) && ChannelOk(st.gValue) && ChannelOk(st.bValue)
  }

  /** Favourites is the flagged part of history: a history record is flagged
      exactly when favourites holds its id, every favourite belongs to a history
      record and carries the same colour, and no id is listed twice. */
  predicate FavoritesMirrorHistory(st: State) {
    && (forall x :: x in st.history ==> (x.isFavorite <==> x.id in Ids(st.favorites)))
    && Ids(st.favorites) <= Ids(st.history)
    && (forall f, x :: f in st.favorites && x in st.history && f.id == x.id ==> SameColor(f, x))
    && UniqueIds(st.favorites)
  }

  predicate AllValid(h: seq<ColorRecord>) {
    forall x :: x in h ==> ValidRecord(x)
  }

  predicate Inv(st: State) {
    && UniqueIds(st.history)
    && AllValid(st.history)
    && FavoritesMirrorHistory(st)
    && ChannelsOk(st)
  }

  lemma InitialInv()
    ensures Inv(Initial)
    ensures Initial.hexColor == "#" && Initial.history == [] && Initial.favorites == []
  {
  }

  // ---------------------------------------------------------------------------
  // Sequence helpers: `filter` on the id and `map` flipping one id's flag

  /** `item.id !== key` is false exactly for a numeric key equal to the id; a
      string never equals a number under `===`. */
  predicate Matches(x: ColorRecord, key: Key) {
    key == ById(x.id)
  }

  /** The filter `deleteFromHistory` and `deleteFromFavorites` apply: keep every
      record whose id differs from the key, in order. */
  function Without(s: seq<ColorRecord>, key: Key): (r: seq<ColorRecord>)
    ensures forall x :: x in r <==> x in s && !Matches(x, key)
    ensures |r| <= |s|
    ensures (forall x :: x in s ==> !Matches(x, key)) ==> r == s
  {
    if s == [] then []
    else
      assert s == [s[0]] + s[1..];
      if Matches(s[0], key) then Without(s[1..], key)
      else [s[0]] + Without(s[1..], key)
  }

  /** Filtering distributes over concatenation, so the survivors keep their order. */
  lemma {:induction false} WithoutConcat(a: seq<ColorRecord>, b: seq<ColorRecord>, key: Key)
    ensures Without(a + b, key) == Without(a, key) + Without(b, key)
  {
    if a == [] {
      assert a + b == b;
    } else {
      assert (a + b)[0] == a[0];
      assert (a + b)[1..] == a[1..] + b;
      WithoutConcat(a[1..], b, key);
    }
  }

  lemma WithoutIds(s: seq<ColorRecord>, id: Id)
    ensures Ids(Without(s, ById(id))) == Ids(s) - {id}
  {
    var r := Without(s, ById(id));
    forall y | y in Ids(s) - {id}
      ensures y in Ids(r)
    {
      var x :| x in s && x.id == y;
      assert x in r;
    }
  }

  lemma UniqueCons(x: ColorRecord, s: seq<ColorRecord>)
    requires UniqueIds(s) && x.id !in Ids(s)
    ensures UniqueIds([x] + s)
  {
    var t := [x] + s;
    forall i, j | 0 <= i < j < |t|
      ensures t[i].id != t[j].id
    {
      if i == 0 {
        assert t[j] == s[j - 1] && t[j] in s;
      } else {
        assert t[i] == s[i - 1] && t[j] == s[j - 1];
      }
    }
  }

  lemma UniqueSnoc(s: seq<ColorRecord>, x: ColorRecord)
    requires UniqueIds(s) && x.id !in Ids(s)
    ensures UniqueIds(s + [x])
  {
    var t := s + [x];
    forall i, j | 0 <= i < j < |t|
      ensures t[i].id != t[j].id
    {
      if j == |s| {
        assert t[i] == s[i] && t[i] in s;
      }
    }
  }

  /** Filtering keeps ids unique. */
  lemma {:induction false} WithoutUnique(s: seq<ColorRecord>, key: Key)
    requires UniqueIds(s)
    ensures UniqueIds(Without(s, key))
  {
    if s != [] {
      var tail := s[1..];
      assert UniqueIds(tail) by {
        forall i, j | 0 <= i < j < |tail|
          ensures tail[i].id != tail[j].id
        {
          assert tail[i] == s[i + 1] && tail[j] == s[j + 1];
        }
      }
      WithoutUnique(tail, key);
      if !Matches(s[0], key) {
        assert s[0].id !in Ids(Without(tail, key)) by {
          forall y | y in Without(tail, key)
            ensures y.id != s[0].id
          {
            var k :| 0 <= k < |tail| && tail[k] == y;
            assert s[k + 1] == y;
          }
        }
        UniqueCons(s[0], Without(tail, key));
      }
    }
  }

  /** The map `toggleFavorite` applies to history: a copy of each record with the
      given id with its flag negated; every other record as it was. */
  function FlipWhere(h: seq<ColorRecord>, id: Id): (r: seq<ColorRecord>)
    ensures |r| == |h|
    ensures forall i :: 0 <= i < |h| ==>
      && r[i].id == h[i].id
      && SameColor(r[i], h[i])
      && r[i].isFavorite == (h[i].isFavorite != (h[i].id == id))
  {
    if h == [] then []
    else
      var x := h[0];
      [if x.id == id then x.(isFavorite := !x.isFavorite) else x] + FlipWhere(h[1..], id)
  }

  // ---------------------------------------------------------------------------
  // Input handlers

  /** The text `handleHexChange` stores: the input, with '#' put in front unless
      it already starts with one. */
  function PrefixHash(value: string): (r: string)
    ensures |r| > 0 && r[0] == '#'
    ensures |value| <= |r| <= |value| + 1 && r[|r| - |value|..] == value
    ensures |value| > 0 && value[0] == '#' ==> r == value
  {
    if |value| > 0 && value[0] == '#' then value else "#" + value
  }

  /** Normalising twice is normalising once. */
  lemma PrefixHashIdempotent(value: string)
    ensures PrefixHash(PrefixHash(value)) == PrefixHash(value)
  {
  }

  /** `handleHexChange(value)`: only the hex box changes. */
  function HandleHexChange(st: State, value: string): (r: State)
    ensures r == st.(hexColor := r.hexColor)
    ensures r.hexColor == PrefixHash(value)
    ensures |r.hexColor| > 0 && r.hexColor[0] == '#'
    ensures |value| <= |r.hexColor| && r.hexColor[|r.hexColor| - |value|..] == value
    ensures Inv(st) ==> Inv(r)
  {
    st.(hexColor := PrefixHash(value))
  }

  /** `validateValue`: empty or non-numeric text becomes unset; a number is
      clamped into [0, 255]. */
  function ValidateValue(f: Field): (v: Option<int>)
    ensures v.None? <==> !f.Numeric?
    ensures v.Some? ==> IsByte(v.value)
    ensures f.Numeric? && IsByte(f.n) ==> v == Some(f.n)
    ensures f.Numeric? && f.n < 0 ==> v == Some(0)
    ensures f.Numeric? && f.n > 255 ==> v == Some(255)
  {
    match f
    case Numeric(n) =>
      var atLeastZero := if n < 0 then 0 else n;
      Some(if atLeastZero > 255 then 255 else atLeastZero)
    case _ => None
  }

  /** How a stored box value reads when the next edit passes it back in. */
  function StoredField(v: Option<int>): Field {
    match v
    case None => Empty
    case Some(n) => Numeric(n)
  }

  /** Re-validating a stored value changes nothing. */
  lemma ValidateValueIdempotent(f: Field)
    ensures ValidateValue(StoredField(ValidateValue(f))) == ValidateValue(f)
  {
  }

  /** The hex `rgbToHex(parseInt(r), parseInt(g), parseInt(b))` gives for box values.
      An unset box parses to NaN. `NaN << 16` and `NaN << 8` are 0 (shifts go
      through ToInt32), so an unset red or green counts as 0; an unset blue makes
      the sum NaN, whose `toString(16)` is "NaN", sliced to "aN" and upper-cased. */
  function ChannelHex(r: Option<int>, g: Option<int>, b: Option<int>): (hex: string)
    requires ChannelOk(r) && ChannelOk(g) && ChannelOk(b)
    ensures b.None? ==> hex == "#AN" && !IsHexColor(hex)
    ensures b.Some? ==> IsHexColor(hex) && HexToRgb(hex) == Parsed(Rgb(r.GetOr(0), g.GetOr(0), b.value))
  {
    if b.None? then "#AN"
    else
      RgbHexRoundTrip(r.GetOr(0), g.GetOr(0), b.value);
      RgbToHex(r.GetOr(0), g.GetOr(0), b.value)
  }

  /** `handleRgbChange(r, g, b)`: every box is validated and stored; when none of
      the three texts is empty, the hex box is recomputed from the stored values. */
  function HandleRgbChange(st: State, r: Field, g: Field, b: Field): (st': State)
    ensures st'.rValue == ValidateValue(r) && st'.gValue == ValidateValue(g) && st'.bValue == ValidateValue(b)
    ensures ChannelsOk(st')
    ensures st' == st.(hexColor := st'.hexColor, rValue := st'.rValue, gValue := st'.gValue, bValue := st'.bValue)
    ensures r.Empty? || g.Empty? || b.Empty? ==> st'.hexColor == st.hexColor
    ensures !r.Empty? && !g.Empty? && !b.Empty? ==>
      st'.hexColor == ChannelHex(st'.rValue, st'.gValue, st'.bValue)
    ensures r.Numeric? && g.Numeric? && b.Numeric? ==>
      && IsHexColor(st'.hexColor)
      && HexToRgb(st'.hexColor) == Parsed(Rgb(ValidateValue(r).value, ValidateValue(g).value, ValidateValue(b).value))
    ensures Inv(st) ==> Inv(st')
  {
    var rv := ValidateValue(r);
    var gv := ValidateValue(g);
    var bv := ValidateValue(b);
    var stored := st.(rValue := rv, gValue := gv, bValue := bv);
    if r != Empty && g != Empty && b != Empty then stored.(hexColor := ChannelHex(rv, gv, bv))
    else stored
  }

  // ---------------------------------------------------------------------------
  // Submissions

  /** `handleHexSubmit()` with `id` standing for the `Math.random()` draw. An
      invalid hex sets the error and clears both results; a valid one clears the
      error, shows the conversions and appends an unflagged record. */
  function HandleHexSubmit(st: State, id: Id): (st': State)
    ensures st'.favorites == st.favorites
    ensures st'.hexColor == st.hexColor && st'.rValue == st.rValue
    ensures st'.gValue == st.gValue && st'.bValue == st.bValue
    ensures !IsHexColor(st.hexColor) ==>
      && st'.history == st.history
      && st'.error == HexError && st'.rgbColor == "" && st'.hslColor == ""
    ensures IsHexColor(st.hexColor) ==>
      && |st'.history| == |st.history| + 1
      && st'.history[..|st.history|] == st.history
      && var x := st'.history[|st.history|];
      && x.id == id && x.hex == st.hexColor && !x.isFavorite
      && ValidRecord(x)
      && x.rgb == RgbText(Rgb(PairValue(x.hex, 1), PairValue(x.hex, 3), PairValue(x.hex, 5)))
      && st'.error == "" && st'.rgbColor == x.rgb && st'.hslColor == x.hsl
  {
    match HexToRgb(st.hexColor)
    case InvalidHex => st.(error := HexError, rgbColor := "", hslColor := "")
    case NoMatch => assert false; st
    case Parsed(c) =>
      var rgb := RgbText(c);
      var hsl := HexToHsl(st.hexColor);
      var x := ColorRecord(id, st.hexColor, rgb, hsl, false);
      assert (st.history + [x])[..|st.history|] == st.history;
      st.(error := "", rgbColor := rgb, hslColor := hsl, history := st.history + [x])
  }

  predicate AllSet(st: State) {
    st.rValue.Some? && st.gValue.Some? && st.bValue.Some?
  }

  /** `${v}` for a box value after `parseInt`: NaN when the box is unset. */
  function ChannelText(v: Option<int>): string {
    match v
    case None => "NaN"
    case Some(n) => IntText(n)
  }

  /** `handleRgbSubmit()` as written, with `id` standing for the `Math.random()`
      draw. It does not check the boxes: it always appends a record, and the
      record is a valid conversion exactly when all three boxes are set. */
  function SubmitRgb(st: State, id: Id): (st': State)
    requires ChannelsOk(st)
    ensures st'.favorites == st.favorites && st'.error == st.error
    ensures st'.rValue == st.rValue && st'.gValue == st.gValue && st'.bValue == st.bValue
    ensures |st'.history| == |st.history| + 1 && st'.history[..|st.history|] == st.history
    ensures var x := st'.history[|st.history|];
      && x.id == id && !x.isFavorite
      && (ValidRecord(x) <==> AllSet(st))
      && st'.hexColor == x.hex && st'.rgbColor == x.rgb && st'.hslColor == x.hsl
    ensures AllSet(st) ==>
      var x := st'.history[|st.history|];
      && x.hex == RgbToHex(st.rValue.value, st.gValue.value, st.bValue.value)
      && HexToRgb(x.hex) == Parsed(Rgb(st.rValue.value, st.gValue.value, st.bValue.value))
  {
    var hex := ChannelHex(st.rValue, st.gValue, st.bValue);
    var rgb := ChannelText(st.rValue) + ", " + ChannelText(st.gValue) + ", " + ChannelText(st.bValue);
    var hsl :=
      if AllSet(st) then RgbToHsl(st.rValue.value, st.gValue.value, st.bValue.value)
      else NaNHsl;
    var x := ColorRecord(id, hex, rgb, hsl, false);
    SubmitRgbRecord(st, x);
    assert (st.history + [x])[..|st.history|] == st.history;
    st.(hexColor := hex, rgbColor := rgb, hslColor := hsl, history := st.history + [x])
  }

  /** Why the record `SubmitRgb` builds is valid exactly when every box is set. */
  lemma SubmitRgbRecord(st: State, x: ColorRecord)
    requires ChannelsOk(st)
    requires x.hex == ChannelHex(st.rValue, st.gValue, st.bValue)
    requires x.rgb == ChannelText(st.rValue) + ", " + ChannelText(st.gValue) + ", " + ChannelText(st.bValue)
    requires AllSet(st) ==> x.hsl == RgbToHsl(st.rValue.value, st.gValue.value, st.bValue.value)
    ensures ValidRecord(x) <==> AllSet(st)
  {
    if AllSet(st) {
      var r, g, b := st.rValue.value, st.gValue.value, st.bValue.value;
      RgbHexRoundTrip(r, g, b);
      RgbToHexKeepsHsl(r, g, b);
      assert x.rgb == RgbText(Rgb(r, g, b));
    } else if st.bValue.Some? {
      NaNTextIsNotRgbText(st.rValue, st.gValue, st.bValue, HexToRgb(x.hex).rgb);
    }
  }

  /** The RGB text of a submission with red or green unset names no colour. */
  lemma NaNTextIsNotRgbText(r: Option<int>, g: Option<int>, b: Option<int>, c: Rgb)
    requires ChannelOk(r) && ChannelOk(g) && ChannelOk(b) && c.Valid()
    requires r.None? || g.None?
    ensures ChannelText(r) + ", " + ChannelText(g) + ", " + ChannelText(b) != RgbText(c)
  {
    var rest := ", " + ChannelText(b);
    var rest' := ", " + IntText(c.b);
    if r.None? {
      var s := ChannelText(r) + ", " + ChannelText(g) + rest;
      assert s[0] == 'N';
      assert RgbText(c)[0] == IntText(c.r)[0];
    } else {
      assert ChannelText(r) + ", " + ChannelText(g) + ", " + ChannelText(b)
          == IntText(r.value) + ", " + "NaN" + rest;
      assert RgbText(c) == IntText(c.r) + ", " + IntText(c.g) + rest';
      DiffersAfterCommonPrefix(IntText(r.value), IntText(c.r), "NaN", IntText(c.g), rest, rest');
    }
  }

  /** Two texts "a, b…" and "a', b'…" differ when the first fields are digit
      strings and the second field of one starts with a letter and the other with a digit. */
  lemma DiffersAfterCommonPrefix(a: string, a': string, b: string, b': string, rest: string, rest': string)
    requires |a| >= 1 && |a'| >= 1 && |b| >= 1 && |b'| >= 1
    requires forall i :: 0 <= i < |a| ==> '0' <= a[i] <= '9'
    requires forall i :: 0 <= i < |a'| ==> '0' <= a'[i] <= '9'
    requires b[0] == 'N' && '0' <= b'[0] <= '9'
    ensures a + ", " + b + rest != a' + ", " + b' + rest'
  {
    var s := a + ", " + b + rest;
    var t := a' + ", " + b' + rest';
    var k := if |a| < |a'| then |a| else if |a'| < |a| then |a'| else |a| + 2;
    assert s[k] != t[k];
  }

  /** The evidently intended submission: no record unless all three boxes hold numbers. */
  function SubmitRgbGuarded(st: State, id: Id): (st': State)
    requires ChannelsOk(st)
    ensures !AllSet(st) ==> st' == st
    ensures AllSet(st) ==>
      && |st'.history| == |st.history| + 1
      && st'.history[..|st.history|] == st.history
      && var x := st'.history[|st.history|];
      && x.id == id && !x.isFavorite && ValidRecord(x)
      && x.hex == RgbToHex(st.rValue.value, st.gValue.value, st.bValue.value)
      && HexToRgb(x.hex) == Parsed(Rgb(st.rValue.value, st.gValue.value, st.bValue.value))
      && st'.hexColor == x.hex && st'.rgbColor == x.rgb && st'.hslColor == x.hsl
    ensures st'.favorites == st.favorites && st'.error == st.error
    ensures st'.rValue == st.rValue && st'.gValue == st.gValue && st'.bValue == st.bValue
  {
    if AllSet(st) then SubmitRgb(st, id) else st
  }

  // ---------------------------------------------------------------------------
  // Favourites and deletion

  /** `toggleFavorite(color)`: every history record with the colour's id has its
      flag flipped; favourites gains `color` itself (its flag still the old
      `false`) when the colour was not a favourite, and otherwise loses every
      entry with that id. */
  function ToggleFavorite(st: State, color: ColorRecord): (st': State)
    ensures st' == st.(history := st'.history, favorites := st'.favorites)
    ensures |st'.history| == |st.history|
    ensures forall i :: 0 <= i < |st.history| ==>
      && st'.history[i].id == st.history[i].id
      && SameColor(st'.history[i], st.history[i])
      && st'.history[i].isFavorite == (st.history[i].isFavorite != (st.history[i].id == color.id))
    ensures !color.isFavorite ==>
      |st'.favorites| == |st.favorites| + 1 && st'.favorites[..|st.favorites|] == st.favorites
      && st'.favorites[|st.favorites|] == color
    ensures color.isFavorite ==> forall f :: f in st'.favorites <==> f in st.favorites && f.id != color.id
  {
    var favorites :=
      if !color.isFavorite then st.favorites + [color]
      else Without(st.favorites, ById(color.id));
    assert (st.favorites + [color])[..|st.favorites|] == st.favorites;
    st.(history := FlipWhere(st.history, color.id), favorites := favorites)
  }

  /** After a toggle the colour's id is in favourites exactly when it was not a
      favourite before; no other id's membership changes. */
  lemma ToggleFavoriteMembership(st: State, color: ColorRecord)
    ensures var st' := ToggleFavorite(st, color);
      && (color.id in Ids(st'.favorites) <==> !color.isFavorite)
      && forall y :: y != color.id ==> (y in Ids(st'.favorites) <==> y in Ids(st.favorites))
  {
    var st' := ToggleFavorite(st, color);
    if color.isFavorite {
      WithoutIds(st.favorites, color.id);
    } else {
      assert st'.favorites == st.favorites + [color];
      assert Ids(st'.favorites) == Ids(st.favorites) + {color.id};
    }
  }

  /** In a state with unique ids, the record with a given id is the one listed. */
  lemma UniqueRecord(h: seq<ColorRecord>, x: ColorRecord, y: ColorRecord)
    requires UniqueIds(h) && x in h && y in h && x.id == y.id
    ensures x == y
  {
  }

  /** Toggling a history record keeps the invariant. */
  lemma ToggleFavoriteKeepsInv(st: State, color: ColorRecord)
    requires Inv(st) && color in st.history
    ensures Inv(ToggleFavorite(st, color))
  {
    var st' := ToggleFavorite(st, color);
    FlipKeepsValid(st.history, color.id);
    ToggleKeepsMirror(st, color);
    assert st'.history == FlipWhere(st.history, color.id);
  }

  /** Flipping flags keeps every record's colour, hence its validity and its id. */
  lemma FlipKeepsValid(h: seq<ColorRecord>, id: Id)
    requires AllValid(h) && UniqueIds(h)
    ensures AllValid(FlipWhere(h, id)) && UniqueIds(FlipWhere(h, id))
  {
    var h' := FlipWhere(h, id);
    forall x' | x' in h'
      ensures ValidRecord(x')
    {
      var i :| 0 <= i < |h'| && h'[i] == x';
      assert h[i] in h;
    }
  }

  /** Toggling a history record keeps favourites mirroring history. */
  lemma ToggleKeepsMirror(st: State, color: ColorRecord)
    requires UniqueIds(st.history) && FavoritesMirrorHistory(st) && color in st.history
    ensures FavoritesMirrorHistory(ToggleFavorite(st, color))
  {
    var st' := ToggleFavorite(st, color);
    var h, h' := st.history, st'.history;
    ToggleFavoriteMembership(st, color);
    forall x' | x' in h'
      ensures x'.isFavorite <==> x'.id in Ids(st'.favorites)
      ensures forall f :: f in st'.favorites && f.id == x'.id ==> SameColor(f, x')
    {
      var i :| 0 <= i < |h'| && h'[i] == x';
      var x := h[i];
      assert x in h;
      if x.id == color.id {
        UniqueRecord(h, x, color);
      }
    }
    forall y | y in Ids(st'.favorites)
      ensures y in Ids(h')
    {
      assert y in Ids(h) by {
        if y == color.id {
          assert color in h;
        }
      }
      var i :| 0 <= i < |h| && h[i].id == y;
      assert h'[i] in h';
    }
    if color.isFavorite {
      WithoutUnique(st.favorites, ById(color.id));
    } else {
      assert st'.favorites == st.favorites + [color];
      UniqueSnoc(st.favorites, color);
    }
  }

  /** Toggling a record and then toggling its updated copy restores history
      exactly and the set of favourite ids; when the record was not a favourite,
      favourites is restored exactly too. */
  lemma ToggleTwice(st: State, color: ColorRecord)
    requires FavoritesMirrorHistory(st) && color in st.history
    ensures var st1 := ToggleFavorite(st, color);
      var color1 := color.(isFavorite := !color.isFavorite);
      && color1 in st1.history
      && var st2 := ToggleFavorite(st1, color1);
      && st2.history == st.history
      && Ids(st2.favorites) == Ids(st.favorites)
      && (!color.isFavorite ==> st2.favorites == st.favorites)
  {
    var st1 := ToggleFavorite(st, color);
    var color1 := color.(isFavorite := !color.isFavorite);
    var i :| 0 <= i < |st.history| && st.history[i] == color;
    assert st1.history[i] == color1;
    FlipTwice(st.history, color.id);
    ToggleTwiceIds(st, color);
    if !color.isFavorite {
      assert color.id !in Ids(st.favorites);
      WithoutConcat(st.favorites, [color], ById(color.id));
      assert Without([color], ById(color.id)) == [];
    }
  }

  /** Flipping the same id twice restores every flag. */
  lemma FlipTwice(h: seq<ColorRecord>, id: Id)
    ensures FlipWhere(FlipWhere(h, id), id) == h
  {
    var h2 := FlipWhere(FlipWhere(h, id), id);
    assert forall i :: 0 <= i < |h| ==> h2[i] == h[i];
  }

  /** Two toggles of one id leave the set of favourite ids as it was. */
  lemma ToggleTwiceIds(st: State, color: ColorRecord)
    requires FavoritesMirrorHistory(st) && color in st.history
    ensures var st1 := ToggleFavorite(st, color);
      Ids(ToggleFavorite(st1, color.(isFavorite := !color.isFavorite)).favorites) == Ids(st.favorites)
  {
    var st1 := ToggleFavorite(st, color);
    var color1 := color.(isFavorite := !color.isFavorite);
    var st2 := ToggleFavorite(st1, color1);
    ToggleFavoriteMembership(st, color);
    ToggleFavoriteMembership(st1, color1);
    assert color.id in Ids(st.favorites) <==> color.isFavorite;
    forall y
      ensures y in Ids(st2.favorites) <==> y in Ids(st.favorites)
    {
    }
    SameMembersSameSet(Ids(st2.favorites), Ids(st.favorites));
  }

  lemma SameMembersSameSet(a: set<Id>, b: set<Id>)
    requires forall y :: y in a <==> y in b
    ensures a == b
  {
    forall y | y in a ensures y in b {
    }
    forall y | y in b ensures y in a {
    }
  }

  /** `deleteFromHistory(id)`: drops every record with that id from both lists. */
  function DeleteFromHistory(st: State, id: Id): (st': State)
    ensures st' == st.(history := st'.history, favorites := st'.favorites)
    ensures id !in Ids(st'.history) && id !in Ids(st'.favorites)
    ensures forall x :: x in st'.history <==> x in st.history && x.id != id
    ensures forall f :: f in st'.favorites <==> f in st.favorites && f.id != id
  {
    st.(history := Without(st.history, ById(id)), favorites := Without(st.favorites, ById(id)))
  }

  /** Deletion keeps the survivors in their order: deleting from a history made
      of two parts deletes from each part. */
  lemma DeleteFromHistoryKeepsOrder(st: State, id: Id, front: seq<ColorRecord>, back: seq<ColorRecord>)
    requires st.history == front + back
    ensures DeleteFromHistory(st, id).history == Without(front, ById(id)) + Without(back, ById(id))
  {
    WithoutConcat(front, back, ById(id));
  }

  lemma DeleteFromHistoryKeepsInv(st: State, id: Id)
    requires Inv(st)
    ensures Inv(DeleteFromHistory(st, id))
  {
    var st' := DeleteFromHistory(st, id);
    WithoutUnique(st.history, ById(id));
    WithoutUnique(st.favorites, ById(id));
    WithoutIds(st.history, id);
    WithoutIds(st.favorites, id);
  }

  /** `deleteFromFavorites(key)`: filters favourites on the id and nothing else. */
  function DeleteFromFavorites(st: State, key: Key): (st': State)
    ensures st' == st.(favorites := st'.favorites)
    ensures key.ByHex? ==> st' == st
    ensures key.ById? ==> forall f :: f in st'.favorites <==> f in st.favorites && f.id != key.id
  {
    st.(favorites := Without(st.favorites, key))
  }

  /** The delete button of the favourites list as wired: it passes the hex. */
  function FavoriteDeletePress(st: State, item: ColorRecord): (st': State)
    ensures st'.history == st.history
  {
    DeleteFromFavorites(st, ByHex(item.hex))
  }

  /** Pressing it removes nothing, whatever the favourites hold. */
  lemma FavoriteDeletePressRemovesNothing(st: State, item: ColorRecord)
    ensures FavoriteDeletePress(st, item) == st
    ensures item in st.favorites ==> item in FavoriteDeletePress(st, item).favorites
  {
  }

  /** The button keyed on the id, as deletion is everywhere else: the item's
      id leaves favourites, every other favourite stays and history is untouched. */
  function FavoriteDeleteById(st: State, item: ColorRecord): (st': State)
    ensures st'.history == st.history
    ensures item.id !in Ids(st'.favorites)
    ensures forall f: ColorRecord :: f.id != item.id ==> (f in st'.favorites <==> f in st.favorites)
  {
    DeleteFromFavorites(st, ById(item.id))
  }

  /** Since `deleteFromFavorites` never clears the history flag, deleting a
      favourite by id leaves its history record flagged with no favourite behind it. */
  lemma FavoriteDeleteByIdLeavesStaleFlag(st: State, x: ColorRecord)
    requires Inv(st) && x in st.history && x.isFavorite
    ensures var st' := FavoriteDeleteById(st, x);
      x in st'.history && x.isFavorite && x.id !in Ids(st'.favorites)
    ensures !FavoritesMirrorHistory(FavoriteDeleteById(st, x))
  {
  }

  /** History with the flag cleared on every record with the given id; every
      other record as it was. */
  function ClearWhere(h: seq<ColorRecord>, id: Id): (r: seq<ColorRecord>)
    ensures |r| == |h|
    ensures forall i :: 0 <= i < |h| ==>
      && r[i].id == h[i].id
      && SameColor(r[i], h[i])
      && r[i].isFavorite == (h[i].isFavorite && h[i].id != id)
  {
    if h == [] then []
    else
      var x := h[0];
      [if x.id == id then x.(isFavorite := false) else x] + ClearWhere(h[1..], id)
  }

  /** The evidently intended favourites delete: the item's id leaves favourites
      and its history record is no longer flagged. */
  function FavoriteDeleteUnflag(st: State, item: ColorRecord): (st': State)
    ensures st' == st.(history := st'.history, favorites := st'.favorites)
    ensures item.id !in Ids(st'.favorites)
    ensures forall f: ColorRecord :: f.id != item.id ==> (f in st'.favorites <==> f in st.favorites)
    ensures |st'.history| == |st.history|
    ensures forall i :: 0 <= i < |st.history| ==>
      && st'.history[i].id == st.history[i].id
      && SameColor(st'.history[i], st.history[i])
      && st'.history[i].isFavorite == (st.history[i].isFavorite && st.history[i].id != item.id)
  {
    st.(history := ClearWhere(st.history, item.id), favorites := Without(st.favorites, ById(item.id)))
  }

  /** Unlike the delete that leaves history alone, this one keeps the invariant. */
  lemma FavoriteDeleteUnflagKeepsInv(st: State, item: ColorRecord)
    requires Inv(st)
    ensures Inv(FavoriteDeleteUnflag(st, item))
  {
    var st' := FavoriteDeleteUnflag(st, item);
    ClearKeepsValid(st.history, item.id);
    UnflagKeepsMirror(st, item);
    assert st'.history == ClearWhere(st.history, item.id);
  }

  /** Clearing flags keeps every record's colour, hence its validity and its id. */
  lemma ClearKeepsValid(h: seq<ColorRecord>, id: Id)
    requires AllValid(h) && UniqueIds(h)
    ensures AllValid(ClearWhere(h, id)) && UniqueIds(ClearWhere(h, id))
  {
    var h' := ClearWhere(h, id);
    forall x' | x' in h'
      ensures ValidRecord(x')
    {
      var i :| 0 <= i < |h'| && h'[i] == x';
      assert h[i] in h;
    }
  }

  /** Removing an id from favourites and clearing its flag keeps the mirror. */
  lemma UnflagKeepsMirror(st: State, item: ColorRecord)
    requires FavoritesMirrorHistory(st)
    ensures FavoritesMirrorHistory(FavoriteDeleteUnflag(st, item))
  {
    var st' := FavoriteDeleteUnflag(st, item);
    var h, h' := st.history, st'.history;
    WithoutIds(st.favorites, item.id);
    WithoutUnique(st.favorites, ById(item.id));
    forall x' | x' in h'
      ensures x'.isFavorite <==> x'.id in Ids(st'.favorites)
      ensures forall f :: f in st'.favorites && f.id == x'.id ==> SameColor(f, x')
    {
      var i :| 0 <= i < |h'| && h'[i] == x';
      assert h[i] in h;
    }
    forall y | y in Ids(st'.favorites)
      ensures y in Ids(h')
    {
      var i :| 0 <= i < |h| && h[i].id == y;
      assert h'[i] in h';
    }
  }

  /** A hex submission with a fresh id keeps the invariant. */
  lemma HandleHexSubmitKeepsInv(st: State, id: Id)
    requires Inv(st) && id !in Ids(st.history)
    ensures Inv(HandleHexSubmit(st, id))
  {
    var st' := HandleHexSubmit(st, id);
    if IsHexColor(st.hexColor) {
      AppendKeepsInv(st, st', st'.history[|st.history|]);
    }
  }

  /** The guarded RGB submission with a fresh id keeps the invariant. */
  lemma SubmitRgbGuardedKeepsInv(st: State, id: Id)
    requires Inv(st) && id !in Ids(st.history)
    ensures Inv(SubmitRgbGuarded(st, id))
  {
    var st' := SubmitRgbGuarded(st, id);
    if AllSet(st) {
      AppendKeepsInv(st, st', st'.history[|st.history|]);
    }
  }

  /** Appending a valid, unflagged record with a fresh id keeps the invariant. */
  lemma AppendKeepsInv(st: State, st': State, x: ColorRecord)
    requires Inv(st) && ChannelsOk(st')
    requires st'.history == st.history + [x] && st'.favorites == st.favorites
    requires x.id !in Ids(st.history) && !x.isFavorite && ValidRecord(x)
    ensures Inv(st')
  {
    UniqueSnoc(st.history, x);
    AppendKeepsValid(st.history, x);
    AppendKeepsMirror(st, st', x);
  }

  lemma AppendKeepsValid(h: seq<ColorRecord>, x: ColorRecord)
    requires AllValid(h) && ValidRecord(x)
    ensures AllValid(h + [x])
  {
  }

  lemma AppendKeepsMirror(st: State, st': State, x: ColorRecord)
    requires FavoritesMirrorHistory(st)
    requires st'.history == st.history + [x] && st'.favorites == st.favorites
    requires x.id !in Ids(st.history) && !x.isFavorite
    ensures FavoritesMirrorHistory(st')
  {
    forall y | y in Ids(st'.favorites)
      ensures y in Ids(st'.history)
    {
      var z :| z in st.history && z.id == y;
      assert z in st'.history;
    }
  }

  /** As written, pressing "Convert RGB" before typing anything appends a record
      whose hex is "#AN", which is not a colour. */
  lemma SubmitRgbUnsetExample()
    ensures Inv(Initial)
    ensures SubmitRgb(Initial, 0).history
         == [ColorRecord(0, "#AN", "NaN, NaN, NaN", NaNHsl, false)]
    ensures !Inv(SubmitRgb(Initial, 0))
  {
    var st' := SubmitRgb(Initial, 0);
    assert ChannelHex(None, None, None) == "#AN";
    assert ChannelText(None) + ", " + ChannelText(None) + ", " + ChannelText(None) == "NaN, NaN, NaN";
    assert st'.history[0] in st'.history;
  }
}
