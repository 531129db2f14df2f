/** The vehicle record (`EVData`, src/types/evData.ts) and the chart-ready
    shapes the aggregation layer returns. */
module EvTypes {

  /** One row of the dataset after parsing. The numeric fields hold what
      `_.toInteger` produced; `electricVehicleType` is declared as one of two
      tags, but the parser stores whatever text the row had, so it is a string. */
  datatype EVData = EVData(
    vin: string,
    county: string,
    city: string,
    state: string,
    postalCode: string,
    modelYear: int,
    make: string,
    model: string,
    electricVehicleType: string,
    cafvEligibility: string,
    electricRange: int,
    baseMSRP: int,
    legislativeDistrict: int,
    dolVehicleId: string,
    vehicleLocation: string,
    electricUtility: string,
    censusTract: string)

  /** The two vehicle-type tags the aggregators recognise (`VEHICLE_TYPES`). */
  const BevTag: string := "Battery Electric Vehicle (BEV)"
  const PhevTag: string := "Plug-in Hybrid Electric Vehicle (PHEV)"

  // Field accessors, for the grouping and filtering functions that take a key.

  function MakeOf(r: EVData): string
  {
    r.make
  }

  function CountyOf(r: EVData): string
  {
    r.county
  }

  function CafvOf(r: EVData): string
  {
    r.cafvEligibility
  }

  function TypeOf(r: EVData): string
  {
    r.electricVehicleType
  }

  function YearOf(r: EVData): int
  {
    r.modelYear
  }

  function RangeOf(r: EVData): int
  {
    r.electricRange
  }

  function MsrpOf(r: EVData): int
  {
    r.baseMSRP
  }

  /** The optional `percentage` of a chart point: absent, JavaScript's NaN
      (what `_.round(0 / 0 * 100)` yields), or a whole number. */
  datatype Percentage = NoPercentage | NaN | Percent(value: int)

  /** `ChartDataPoint`: a label, a value and an optional percentage. */
  datatype ChartDataPoint = ChartDataPoint(name: string, value: int, percentage: Percentage)

  /** `YearTrendData`: one model year with its total and its BEV and PHEV counts. */
  datatype YearTrendData = YearTrendData(year: int, count: int, bev: int, phev: int)
}
