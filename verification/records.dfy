/** One row of the results file (`ResultItem` in data/dataService.ts), with
    the two loosely typed cells given their own datatypes. */
module Records {
  import opened Text

  /** The "Date Naiss" cell: missing, a spreadsheet serial number, or a string. */
  datatype BirthDate = Missing | Serial(serial: real) | Written(text: String)

  /** The "Moy_Bac" cell: a number, or a string written with a decimal comma. */
  datatype RawAverage = Number(value: real) | Written(text: String)

  datatype Candidate = Candidate(
    noreg: String,
    wilayaFr: String,
    wilayaAr: String,
    centreFr: String,   // "Centre Examen  FR" (two spaces in the key)
    centreAr: String,   // "Centre Examen  AR"
    schoolFr: String,   // Etablissement_FR
    schoolAr: String,   // Etablissement_AR
    numBac: String,
    serie: String,      // SERIE, the short series code
    serieFr: String,
    serieAr: String,
    nni: String,
    nomFr: String,
    nomAr: String,
    lieuFr: String,
    lieuAr: String,
    dateNaiss: BirthDate,
    moyBac: RawAverage,
    decision: String
  )

  /** The interface language. */
  datatype Lang = Fr | Ar

  /** The three decision labels, matched literally. */
  const Admitted: String := "Admis Sn"
  const Postponed: String := "Ajourné Sn"
  const Retake: String := "Sessionnaire"
}
