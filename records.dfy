/** The program's `DataPoint` record and the categorical encodings that
    `encodeCategorical` writes into it. */
module Records {
  import opened CLib

  /** One row of the metadata table: the nine text fields as loaded, the four
      integer encodings and the five scaled features. The scaled features are
      C `float`s; they are kept as abstract reals here. */
  datatype DataPoint = DataPoint(
    imageName: CStr,
    patientId: CStr,
    lesionId: CStr,
    sex: CStr,
    age: CStr,
    site: CStr,
    diagnosis: CStr,
    benignMalignant: CStr,
    target: CStr,
    sexEncoded: int,
    benignMalignantEncoded: int,
    siteEncoded: int,
    diagnosisEncoded: int,
    ageScaled: real,
    sexScaled: real,
    benignMalignantScaled: real,
    siteScaled: real,
    diagnosisScaled: real)

  /** A global `DataPoint` before anything is stored in it: all bytes zero. */
  const Zero := DataPoint([], [], [], [], [], [], [], [], [], 0, 0, 0, 0, 0.0, 0.0, 0.0, 0.0, 0.0)

  const Male: CStr := FromAscii("male")
  const Benign: CStr := FromAscii("benign")

  /** `strcmp(sex, "male") == 0 ? 1 : 0` */
  function SexEncoding(sex: CStr): (code: int)
    ensures code == 1 <==> sex == Male
    ensures code == 0 <==> sex != Male
  {
    StrCmpZeroIff(sex, Male);
    if StrCmp(sex, Male) == 0 then 1 else 0
  }

  /** `strcmp(benign_malignant, "benign") == 0 ? 0 : 1` */
  function BenignMalignantEncoding(status: CStr): (code: int)
    ensures code == 0 <==> status == Benign
    ensures code == 1 <==> status != Benign
  {
    StrCmpZeroIff(status, Benign);
    if StrCmp(status, Benign) == 0 then 0 else 1
  }

  /** The code of a `site` or `diagnosis` field: -1 when it is empty, otherwise
      its first `char` taken `% 100` with C's truncating remainder. With a
      signed `char`, a first byte of -1 or -101 also yields -1. */
  function CategoryEncoding(field: CStr): (code: int)
    ensures code == -1 <==> field == [] || field[0] == -1 || field[0] == -101
    ensures field != [] && 0 <= field[0] ==> 0 <= code <= 99 && code == field[0] % 100
    ensures field != [] && field[0] < 0 ==> -99 <= code <= 0 && (field[0] - code) % 100 == 0
  {
    if |field| > 0 then CRem100(field[0]) else -1
  }

  /** What `encodeCategorical` makes of one row: the four encoded fields are
      set from the text fields, and nothing else in the row changes. */
  function Encoded(p: DataPoint): (q: DataPoint)
    ensures q == p.(sexEncoded := q.sexEncoded, benignMalignantEncoded := q.benignMalignantEncoded,
                    siteEncoded := q.siteEncoded, diagnosisEncoded := q.diagnosisEncoded)
    ensures q.sexEncoded == 1 <==> p.sex == Male
    ensures q.sexEncoded == 0 <==> p.sex != Male
    ensures q.benignMalignantEncoded == 0 <==> p.benignMalignant == Benign
    ensures q.benignMalignantEncoded == 1 <==> p.benignMalignant != Benign
    ensures q.siteEncoded == CategoryEncoding(p.site)
    ensures q.diagnosisEncoded == CategoryEncoding(p.diagnosis)
  {
    p.(sexEncoded := SexEncoding(p.sex),
       benignMalignantEncoded := BenignMalignantEncoding(p.benignMalignant),
       siteEncoded := CategoryEncoding(p.site),
       diagnosisEncoded := CategoryEncoding(p.diagnosis))
  }
}
