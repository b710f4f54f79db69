/** The record shapes of types/saily.types.ts that the modelled page objects build. Optional
    properties are `Option`s; the comparison table only ever holds strings. */
module SailyTypes {
  import opened Wrappers

  datatype CountryDestination = CountryDestination(name: string, code: string, priceFrom: string, url: string)

  datatype DataPackage = DataPackage(
    id: string,
    dataAmount: string,
    duration: string,
    price: string,
    originalPrice: Option<string>,
    discountPercentage: Option<int>,
    cashbackPercentage: int,
    isRecommended: bool,
    isUnlimited: bool)

  datatype ComparisonTableData = ComparisonTableData(feature: string, saily: string, competitors: map<string, string>)

  datatype CountryPageData = CountryPageData(
    countryName: string,
    countryCode: string,
    packages: seq<DataPackage>,
    specialNotice: Option<string>,
    features: seq<string>,
    description: string,
    technicalSpecs: seq<string>)
}
