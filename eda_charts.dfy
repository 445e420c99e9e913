/** get_all_chart_data: every chart builder run on one table. */
module EdaCharts {
  import opened Wrappers
  import opened EdaTable
  import opened EdaProfiler
  import opened EdaHistogram
  import opened EdaBoxPlot
  import opened EdaBarChart
  import opened EdaCorrelation
  import opened EdaScatter

  datatype ChartDataCollection = ChartDataCollection(
    histograms: seq<HistogramData>,
    boxPlots: seq<BoxPlotData>,
    barCharts: seq<BarChartData>,
    correlationMatrix: Option<CorrelationMatrix>,
    missingData: MissingDataMatrix,
    scatterPlots: seq<ScatterPlotData>)

  /** get_all_chart_data(df), each builder with its default cap. */
  method GetAllChartData(t: Table, std: seq<real> -> real, r: Pearson, sample: Sampler)
    returns (charts: ChartDataCollection)
    requires Valid(t)
    ensures charts.histograms == Histograms(Take(NumberColumns(t.columns), 10), std)
    ensures charts.boxPlots == BoxPlots(Take(NumberColumns(t.columns), 10))
    ensures var cs := ChartedColumns(t.columns, 8);
      (forall c | c in cs :: Texts(c.cells) != []) && charts.barCharts == Charts(cs)
    ensures charts.correlationMatrix == CorrelationOf(t.columns, r)
    ensures charts.missingData == GetMissingDataMatrix(t)
    ensures charts.scatterPlots == ScatterPlotsOf(t, r, sample, 5)
  {
    var histograms := GetHistogramData(t, std);
    var boxPlots := GetBoxPlotData(t);
    var barCharts := GetBarChartData(t);
    var correlationMatrix := GetCorrelationMatrix(t, r);
    var scatterPlots := GetScatterPlotData(t, r, sample);
    charts := ChartDataCollection(histograms, boxPlots, barCharts, correlationMatrix,
      GetMissingDataMatrix(t), scatterPlots);
  }
}
