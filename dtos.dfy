/** The records the backend returns to the desktop client. Times are ticks, `double` is `real`. */
module Dtos {
  import opened Common

  datatype SummaryDto = SummaryDto(
    totalSubmissions: int,
    correctSubmissions: int,
    wrongSubmissions: int,
    submissionSuccessRate: real,
    newLearners: int,
    newLearnersChange: int,
    newLearnersChangePercent: real,
    certificates: int,
    certificatesChange: int,
    reputationDelta: int,
    knowledgeDelta: int,
    reviewsCount: int,
    reviewsCountChange: int,
    ratingValue: real,
    ratingDelta: real,
    reviewsAverage: real,
    activeLearnersDau: int,
    activeLearnersDauChange: int,
    activeLearnersDauChangePercent: real)

  datatype DataPointDto = DataPointDto(date: int, value: real)

  /** `labelText` is the `Label` field (`label` is reserved in Dafny). */
  datatype SeriesDto = SeriesDto(metricName: string, labelText: string, color: string, dataPoints: seq<DataPointDto>)

  datatype ComparisonDto = ComparisonDto(currentPeriod: SummaryDto, previousPeriod: SummaryDto)

  datatype MetricsResponseDto = MetricsResponseDto(summary: SummaryDto, series: seq<SeriesDto>, comparison: Option<ComparisonDto>)

  datatype SyncStatusDto = SyncStatusDto(
    lastSyncAt: Option<int>,
    status: string,
    errorMessage: Option<string>,
    fetchedItemsCount: Option<int>)

  datatype CourseDto = CourseDto(
    id: Guid,
    stepikCourseId: int,
    title: string,
    description: Option<string>,
    coverUrl: Option<string>,
    isEnabled: bool,
    createdAt: int,
    updatedAt: int,
    lastSync: Option<SyncStatusDto>)

  /** `duration` is a `TimeSpan`, in ticks. */
  datatype SyncRunDto = SyncRunDto(
    id: Guid,
    courseId: Guid,
    startedAt: int,
    finishedAt: Option<int>,
    status: string,
    errorText: Option<string>,
    fetchedItemsCount: int,
    duration: Option<int>)
}
