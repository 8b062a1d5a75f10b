/** The records that flow through the pipeline. */
module Regions {
  /** One row of the exon or intron table: chromosome, 0-based inclusive start, exclusive
      end, the feature type (`"exon"` or `"intron"`) and the gene it belongs to. */
  datatype Region = Region(chrom: string, start: int, end: int, kind: string, gene: string)

  /** One interval of the reference (BED) file, 0-based and half-open. */
  datatype Interval = Interval(chrom: string, start: int, end: int)
}
