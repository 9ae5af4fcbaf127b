/** The countries service: the `countries` table (one row per `countryWorldId`)
    and the `country_attributes` table, whose rows belong to a country and are
    deleted with it. */
module Countries {
  import opened Common

  datatype Country = Country(id: int, countryWorldId: int)

  /** One `{ attributeId, value_en, value_ar }` entry of a request body. */
  datatype AttributeInput = AttributeInput(attributeId: int, valueEn: string, valueAr: string)

  datatype CountryAttribute = CountryAttribute(id: int, countryId: int, attributeId: int, valueEn: string, valueAr: string)

  /** The body of `create`. */
  datatype CountryInput = CountryInput(countryWorldId: int, attributes: Option<seq<AttributeInput>>)

  /** The body of `update`: every field optional. */
  datatype CountryPatch = CountryPatch(countryWorldId: Option<int>, attributes: Option<seq<AttributeInput>>)

  /** A country with its attribute rows (the `attributes` relation), keyed by row id. */
  datatype CountryDetail = CountryDetail(country: Country, attributes: map<int, CountryAttribute>)

  const DuplicateWorldId: string := "Country with this countryWorldId already exists"

  function NotFoundMessage(id: int): string
  {
    "Country with ID " + Decimal(id) + " not found"
  }

  /** The attribute rows of one country. */
  function AttributesOf(rows: map<int, CountryAttribute>, countryId: int): map<int, CountryAttribute>
  {
    map k | k in rows && rows[k].countryId == countryId :: rows[k]
  }

  /** The rows `attributes.map(...)` creates for `countryId`, saved with the ids
      `start`, `start + 1`, ... in input order. */
  function NewRows(inputs: seq<AttributeInput>, countryId: int, start: int): (r: map<int, CountryAttribute>)
    ensures forall k :: k in r <==> start <= k < start + |inputs|
    ensures forall k :: k in r ==> r[k].id == k && r[k].countryId == countryId
    ensures forall i :: 0 <= i < |inputs| ==>
      r[start + i] == CountryAttribute(start + i, countryId, inputs[i].attributeId, inputs[i].valueEn, inputs[i].valueAr)
  {
    if inputs == [] then map[]
    else
      var n := |inputs| - 1;
      var last := inputs[n];
      NewRows(inputs[..n], countryId, start)[start + n := CountryAttribute(start + n, countryId, last.attributeId, last.valueEn, last.valueAr)]
  }

  /** `delete({ countryId })` followed by saving the new rows. */
  function Replaced(rows: map<int, CountryAttribute>, countryId: int, inputs: seq<AttributeInput>, start: int): map<int, CountryAttribute>
  {
    (map k | k in rows && rows[k].countryId != countryId :: rows[k]) + NewRows(inputs, countryId, start)
  }

  /** Replacing a country's attributes leaves it exactly the new rows (none for an
      empty array) and leaves every other country's rows as they were. */
  lemma ReplacedRows(rows: map<int, CountryAttribute>, countryId: int, inputs: seq<AttributeInput>, start: int)
    requires forall k :: k in rows ==> k < start
    ensures AttributesOf(Replaced(rows, countryId, inputs, start), countryId) == NewRows(inputs, countryId, start)
    ensures inputs == [] ==> AttributesOf(Replaced(rows, countryId, inputs, start), countryId) == map[]
    ensures forall other :: other != countryId ==>
      AttributesOf(Replaced(rows, countryId, inputs, start), other) == AttributesOf(rows, other)
  {
    var after := Replaced(rows, countryId, inputs, start);
    var added := NewRows(inputs, countryId, start);
    forall other | other != countryId
      ensures AttributesOf(after, other) == AttributesOf(rows, other)
    {
      forall k | k in added ensures k !in AttributesOf(after, other) {
      }
    }
  }

  /** The attribute list of a request body, `[]` when absent. */
  function Listed(attributes: Option<seq<AttributeInput>>): seq<AttributeInput>
  {
    if attributes.Some? then attributes.value else []
  }

  class CountriesService {
    var countries: map<int, Country>
    var nextCountryId: int
    var attributes: map<int, CountryAttribute>
    var nextAttributeId: int

    /** Rows are keyed by their own ids below the next id, every attribute row
        belongs to an existing country, and no two countries share a
        `countryWorldId`. */
    ghost predicate Valid()
      reads this
    {
      nextCountryId >= 1 && nextAttributeId >= 1
      && (forall id :: id in countries ==> countries[id].id == id && 1 <= id < nextCountryId)
      && (forall k :: k in attributes ==> attributes[k].id == k && 1 <= k < nextAttributeId)
      && (forall k :: k in attributes ==> attributes[k].countryId in countries)
      && WorldIdsUnique()
    }

    ghost predicate WorldIdsUnique()
      reads this
    {
      forall a, b :: a in countries && b in countries && countries[a].countryWorldId == countries[b].countryWorldId ==> a == b
    }

    /** Some country holds this `countryWorldId`. */
    ghost predicate WorldIdTaken(w: int)
      reads this
    {
      exists id :: id in countries && countries[id].countryWorldId == w
    }

    /** A country other than `id` holds this `countryWorldId`. */
    ghost predicate HeldByOther(w: int, id: int)
      reads this
    {
      exists other :: other in countries && other != id && countries[other].countryWorldId == w
    }

    constructor()
      ensures Valid() && countries == map[] && attributes == map[]
    {
      countries := map[];
      attributes := map[];
      nextCountryId := 1;
      nextAttributeId := 1;
    }

    /** A country with the rows of `country_attributes` that belong to it. */
    function Detail(id: int): (d: CountryDetail)
      requires id in countries
      reads this
      ensures d.country == countries[id]
      ensures forall k :: k in d.attributes <==> k in attributes && attributes[k].countryId == id
      ensures forall k :: k in d.attributes ==> d.attributes[k] == attributes[k]
    {
      CountryDetail(countries[id], AttributesOf(attributes, id))
    }

    /** `findOne` with its attribute rows. */
    function FindOne(id: int): (r: Result<CountryDetail>)
      reads this
      ensures r.Ok? <==> id in countries
      ensures r.Ok? ==> r.value == Detail(id)
      ensures r.Err? ==> r.error == NotFound(NotFoundMessage(id))
    {
      if id in countries then Ok(Detail(id))
      else Err(NotFound(NotFoundMessage(id)))
    }

    /** `findOne({ where: { countryWorldId } })`: the id of the country holding it. */
    method FindByWorldId(w: int) returns (r: Option<int>)
      requires Valid()
      ensures r.None? <==> !WorldIdTaken(w)
      ensures r.Some? ==> r.value in countries && countries[r.value].countryWorldId == w
    {
      if !exists id :: id in countries && countries[id].countryWorldId == w {
        return None;
      }
      var id :| id in countries && countries[id].countryWorldId == w;
      r := Some(id);
    }

    /** `create`: refuses a taken `countryWorldId`; otherwise adds the country and
        one attribute row per supplied attribute. */
    method Create(dto: CountryInput) returns (r: Result<CountryDetail>)
      requires Valid()
      modifies this
      ensures Valid() && WorldIdsUnique()
      ensures old(WorldIdTaken(dto.countryWorldId)) ==>
        r == Err(Conflict(DuplicateWorldId)) && countries == old(countries) && attributes == old(attributes)
      ensures !old(WorldIdTaken(dto.countryWorldId)) ==>
        var id := old(nextCountryId);
        countries == old(countries)[id := Country(id, dto.countryWorldId)]
        && attributes == old(attributes) + NewRows(Listed(dto.attributes), id, old(nextAttributeId))
        && r == FindOne(id) && r.Ok?
    {
      var existing := FindByWorldId(dto.countryWorldId);
      if existing.Some? {
        return Err(Conflict(DuplicateWorldId));
      }
      var id := nextCountryId;
      countries := countries[id := Country(id, dto.countryWorldId)];
      nextCountryId := nextCountryId + 1;
      SaveAttributes(id, Listed(dto.attributes));
      r := FindOne(id);
    }

    /** `update`: a truthy `countryWorldId` held by another country is refused
        before any write; an `attributes` array replaces the country's rows. */
    method Update(id: int, patch: CountryPatch) returns (r: Result<CountryDetail>)
      requires Valid()
      modifies this
      ensures Valid() && WorldIdsUnique() && nextCountryId == old(nextCountryId)
      ensures id !in old(countries) ==>
        r == Err(NotFound(NotFoundMessage(id))) && countries == old(countries) && attributes == old(attributes)
      ensures id in old(countries) && Truthy(patch) && old(HeldByOther(patch.countryWorldId.value, id)) ==>
        r == Err(Conflict(DuplicateWorldId)) && countries == old(countries) && attributes == old(attributes)
      ensures r.Ok? ==>
        id in old(countries)
        && countries == old(countries)[id := Country(id, Renumbered(old(countries)[id].countryWorldId, patch.countryWorldId))]
        && (patch.attributes.None? ==> attributes == old(attributes))
        && (patch.attributes.Some? ==>
              attributes == Replaced(old(attributes), id, patch.attributes.value, old(nextAttributeId)))
        && r == FindOne(id)
      ensures id in old(countries) && !(Truthy(patch) && old(HeldByOther(patch.countryWorldId.value, id))) ==> r.Ok?
    {
      if id !in countries {
        return Err(NotFound(NotFoundMessage(id)));
      }
      var country := countries[id];
      if Truthy(patch) {
        var w := patch.countryWorldId.value;
        var existing := FindByWorldId(w);
        if existing.Some? && existing.value != id {
          return Err(Conflict(DuplicateWorldId));
        }
        assert !HeldByOther(w, id);
        country := country.(countryWorldId := w);
      }
      countries := countries[id := country];
      if patch.attributes.Some? {
        ReplaceAttributes(id, patch.attributes.value);
      }
      r := FindOne(id);
    }

    /** `delete({ countryId })`, then saving one new row per input when there are any. */
    method ReplaceAttributes(id: int, inputs: seq<AttributeInput>)
      requires Valid() && id in countries
      modifies this
      ensures Valid() && countries == old(countries) && nextCountryId == old(nextCountryId)
      ensures attributes == Replaced(old(attributes), id, inputs, old(nextAttributeId))
      ensures nextAttributeId == old(nextAttributeId) + |inputs|
    {
      attributes := map k | k in attributes && attributes[k].countryId != id :: attributes[k];
      SaveAttributes(id, inputs);
    }

    /** Saving one new row of `country_attributes` per input, when there are any. */
    method SaveAttributes(id: int, inputs: seq<AttributeInput>)
      requires Valid() && id in countries
      modifies this
      ensures Valid() && countries == old(countries) && nextCountryId == old(nextCountryId)
      ensures attributes == old(attributes) + NewRows(inputs, id, old(nextAttributeId))
      ensures nextAttributeId == old(nextAttributeId) + |inputs|
    {
      if |inputs| > 0 {
        attributes := attributes + NewRows(inputs, id, nextAttributeId);
        nextAttributeId := nextAttributeId + |inputs|;
      } else {
        assert NewRows(inputs, id, nextAttributeId) == map[];
        assert attributes + map[] == attributes;
      }
    }

    /** `remove`: deletes the country; its attribute rows go with it (ON DELETE CASCADE). */
    method Remove(id: int) returns (r: Result<()>)
      requires Valid()
      modifies this
      ensures Valid()
      ensures id !in old(countries) ==>
        r == Err(NotFound(NotFoundMessage(id))) && countries == old(countries) && attributes == old(attributes)
      ensures id in old(countries) ==>
        r == Ok(()) && countries == old(countries) - {id}
        && attributes == map k | k in old(attributes) && old(attributes)[k].countryId != id :: old(attributes)[k]
    {
      if id !in countries {
        return Err(NotFound(NotFoundMessage(id)));
      }
      countries := countries - {id};
      attributes := map k | k in attributes && attributes[k].countryId != id :: attributes[k];
      r := Ok(());
    }

    /** `findAll`: every country with its attribute rows, ascending by id
        (`Ascending` lists each id once, in increasing order). */
    method FindAll() returns (r: seq<CountryDetail>)
      ensures |r| == |Ascending(countries.Keys)|
      ensures forall i :: 0 <= i < |r| ==>
        Ascending(countries.Keys)[i] in countries && r[i] == Detail(Ascending(countries.Keys)[i])
    {
      var ids := AscendingKeys(countries);
      r := [];
      for i := 0 to |ids|
        invariant |r| == i
        invariant forall j :: 0 <= j < i ==> ids[j] in countries && r[j] == Detail(ids[j])
      {
        r := r + [Detail(ids[i])];
      }
    }
  }

  /** `if (updateCountryDto.countryWorldId)`: present and not 0. */
  predicate Truthy(patch: CountryPatch)
  {
    patch.countryWorldId.Some? && patch.countryWorldId.value != 0
  }

  /** The `countryWorldId` after an update: a truthy requested value replaces it. */
  function Renumbered(current: int, requested: Option<int>): (w: int)
    ensures requested.None? || requested.value == 0 ==> w == current
    ensures requested.Some? && requested.value != 0 ==> w == requested.value
  {
    if requested.Some? && requested.value != 0 then requested.value else current
  }
}
